/**
  Points of power loss from which a boot can go on: what a boot needs of the view it finds, and that
  every flash write of an operation leaves it, except while a sector is marked for collection.
*/
module KvRestart {
  import opened Bytes
  import opened KvLayout
  import opened KvImage
  import opened KvWalk
  import opened KvView
  import opened KvModel
  import opened KvRest
  import opened KvRoom
  import opened KvGc
  import opened KvCrash

  /** Headers at boot, once faulty sectors are formatted and with no collection under way. */
  ghost predicate Booting(secs: View) {
    forall i :: 0 <= i < |secs| ==> secs[i].store in {Empty, Using} && secs[i].dirt in {Clean, Dirty}
  }

  /** Headers a boot can find: faulty, or sound and not under collection; one sector in reserve. */
  ghost predicate Bootable(secs: View) {
    && (forall i :: 0 <= i < |secs| ==>
          secs[i].store in {StoreUnused, Empty, Using} && secs[i].dirt in {DirtUnused, Clean, Dirty})
    && exists i :: 0 <= i < |secs| && secs[i].store in {StoreUnused, Empty}
  }

  /** A record that can be laid behind left-over bytes: its last byte is programmed. */
  ghost predicate Solid(key: Key, value: Value) {
    Storable(key, value) && FirmValue(key, value)
  }

  /** Recovery can lay every half-deleted record anywhere. */
  ghost predicate HalfFirm(secs: View) {
    forall p, k :: At(secs, p, PreDelete, k) ==> Solid(k, ValueAt(secs, p))
  }

  /** Power can be cut while any half-deleted record is being copied. */
  ghost predicate HalfTame(secs: View) {
    forall p, k :: At(secs, p, PreDelete, k) ==> Tame(secs, k, ValueAt(secs, p))
  }

  /** The contents `v`, read afresh, are fit for a boot. */
  ghost predicate Restart(v: View) {
    Bootable(v) && Settled(RereadAll(v)) && Exact(RereadAll(v)) && HalfFirm(v)
  }

  /** So are those after every write since `from`; with `gc`, unless a sector is marked for collection. */
  ghost predicate AllRestart(trace: seq<View>, from: nat, gc: bool) {
    forall t {:trigger trace[t]} :: from <= t < |trace| ==> if NoGc(trace[t]) then Restart(trace[t]) else gc
  }

  /** A view between two steps of an operation: fit for a boot, or under collection. */
  ghost predicate Guarded(a: View) {
    Settled(a) && Exact(a) && (NoGc(a) ==> Booting(a) && Empties(a) != {} && HalfFirm(a))
  }

  /** An empty sector other than `t`. */
  ghost predicate ReserveBeside(a: View, t: nat) {
    exists e :: 0 <= e < |a| && e != t && a[e].store == Empty
  }

  // ----- traces -----

  lemma RestartNone(trace: seq<View>)
    ensures forall gc :: AllRestart(trace, |trace|, gc)
  {
  }

  lemma RestartWeaken(trace: seq<View>, from: nat, gc: bool)
    requires AllRestart(trace, from, false)
    ensures AllRestart(trace, from, gc)
  {
    hide NoGc, Restart;
  }

  lemma RestartOne(t0: seq<View>, t1: seq<View>, from: nat, v: View, gc: bool)
    requires AllRestart(t0, from, gc) && from <= |t0| && t1 == t0 + [v] && if NoGc(v) then Restart(v) else gc
    ensures AllRestart(t1, from, gc)
  {
    hide NoGc, Restart;
  }

  lemma RestartChain(t0: seq<View>, t1: seq<View>, from: nat, gc: bool)
    requires from <= |t0| && AllRestart(t0, from, gc) && Extends(t0, t1) && AllRestart(t1, |t0|, gc)
    ensures AllRestart(t1, from, gc)
  {
    hide NoGc, Restart;
    forall t | from <= t < |t1| ensures if NoGc(t1[t]) then Restart(t1[t]) else gc {
      if t < |t0| {
        assert t1[..|t0|][t] == t0[t];
      }
    }
  }

  lemma BootingIsBootable(a: View)
    requires Booting(a) && Empties(a) != {}
    ensures Bootable(a)
  {
    var i :| i in Empties(a);
    assert a[i].store == Empty;
  }

  lemma FitRestarts(v: View)
    requires Settled(v) && Exact(v) && Bootable(v) && HalfFirm(v)
    ensures Restart(v)
  {
    hide Settled, Exact, Bootable, HalfFirm;
    FitRereadAll(v);
  }

  lemma GuardedRestarts(v: View)
    requires Guarded(v) && NoGc(v)
    ensures Restart(v)
  {
    hide Settled, Exact, Booting, HalfFirm, Empties;
    BootingIsBootable(v);
    FitRestarts(v);
  }

  // ----- marks -----

  lemma MarkedFit(a: View, b: View)
    requires MarkedFrom(a, b) && Settled(a) && Exact(a)
    ensures Settled(b) && Exact(b) && LagKept(a, b)
  {
    hide SectorSettled, SectorExact, Lag, Marked;
    forall i | 0 <= i < |b| ensures SectorSettled(b[i]) && SectorExact(b[i]) && Lag(b[i]) == Lag(a[i]) {
      if b[i] != a[i] {
        MarkedSector(a[i], 0);
      }
    }
  }

  lemma HalfSame(a: View, b: View)
    requires SameRecords(a, b)
    ensures HalfFirm(a) <==> HalfFirm(b)
  {
    hide At, ValueAt, Solid;
    forall p, k ensures At(a, p, PreDelete, k) <==> At(b, p, PreDelete, k) {}
    forall p, k | At(a, p, PreDelete, k) ensures ValueAt(a, p) == ValueAt(b, p) {}
  }

  lemma MarkedGuarded(a: View, b: View)
    requires MarkedFrom(a, b) && Guarded(a) && Sane(a)
    ensures Guarded(b)
  {
    hide Settled, Exact, HalfFirm, MarkedFrom, Sane, SameRecords, LagKept;
    MarkedFit(a, b);
    MarksSameMap(a, b);
    HalfSame(a, b);
    MarkedFromLength(a, b);
    forall i | 0 <= i < |a| ensures b[i].store == a[i].store && b[i].dirt == a[i].dirt {
      MarkedFromSame(a, b, i);
    }
    assert Empties(a) == Empties(b);
  }

  lemma MarksRestart(trace: seq<View>, from: nat, base: View)
    requires OnlyMarks(trace, from, base) && Guarded(base) && Sane(base)
    ensures AllRestart(trace, from, !NoGc(base))
  {
    hide Guarded, MarkedFrom, Sane, Restart, NoGc;
    forall t | from <= t < |trace| ensures if NoGc(trace[t]) then Restart(trace[t]) else !NoGc(base) {
      MarkedGuarded(base, trace[t]);
      MarkedHeaders(base, trace[t]);
      if NoGc(trace[t]) {
        GuardedRestarts(trace[t]);
      }
    }
  }

  // ----- a record changes its status -----

  /** What restating one complete record keeps. */
  lemma RestatedGuarded(a: View, p: Pos, st: KvStatus, key: Key, prior: KvStatus)
    requires Guarded(a) && At(a, p, prior, key) && IsRec(a, p.sec, p.idx) && st in {PreDelete, Deleted}
    requires st == PreDelete && NoGc(a) ==> Solid(key, ValueAt(a, p))
    ensures Guarded(Restated(a, p, st)) && Guarded(DeletedView(a, p.sec, p.idx, st))
    ensures LagKept(a, DeletedView(a, p.sec, p.idx, st))
  {
    hide SectorSettled, SectorExact, Lag, Solid, HalfFirm, Empties;
    StatusKeepsSector(a[p.sec], p.idx, st);
    RestatedHeaders(a, p, st);
    var m, b := Restated(a, p, st), DeletedView(a, p.sec, p.idx, st);
    DirtFit(m[p.sec], Dirty);
    forall i | 0 <= i < |a|
      ensures SectorSettled(m[i]) && SectorExact(m[i]) && SectorSettled(b[i]) && SectorExact(b[i])
      ensures Lag(b[i]) == Lag(a[i])
    {
      assert SectorSettled(a[i]) && SectorExact(a[i]);
    }
    if NoGc(a) {
      RestatedHalf(a, p, st, key, prior);
    }
  }

  lemma DirtFit(s: Sector, d: Dirt)
    ensures SectorSettled(s.(dirt := d)) <==> SectorSettled(s)
    ensures SectorExact(s.(dirt := d)) <==> SectorExact(s)
    ensures Lag(s.(dirt := d)) == Lag(s)
  {
    hide NeverAhead, Harmless, RecShape, Firm;
  }

  lemma RestatedHeaders(a: View, p: Pos, st: KvStatus)
    requires IsRec(a, p.sec, p.idx)
    ensures var m, b := Restated(a, p, st), DeletedView(a, p.sec, p.idx, st);
            && |m| == |b| == |a| && Empties(m) == Empties(b) == Empties(a) && (NoGc(m) <==> NoGc(a))
            && (NoGc(b) <==> NoGc(a))
            && (Booting(a) ==> Booting(m) && Booting(b))
            && m[p.sec] == SetRecStatus(a[p.sec], p.idx, st)
            && (b[p.sec] == m[p.sec] || b[p.sec] == m[p.sec].(dirt := Dirty))
            && (forall i :: 0 <= i < |a| && i != p.sec ==> m[i] == a[i] && b[i] == a[i])
            && (forall t :: ReserveBeside(a, t) ==> ReserveBeside(b, t))
  {
    var m, b := Restated(a, p, st), DeletedView(a, p.sec, p.idx, st);
    assert forall i :: 0 <= i < |a| ==> m[i].store == a[i].store && b[i].store == a[i].store;
    assert m[p.sec].dirt == a[p.sec].dirt;
    assert forall i ::
             0 <= i < |a| ==> (b[i].dirt == Gc <==> a[i].dirt == Gc) && (m[i].dirt == Gc <==> a[i].dirt == Gc);
    forall t | ReserveBeside(a, t) ensures ReserveBeside(b, t) {
      var e :| 0 <= e < |a| && e != t && a[e].store == Empty;
      assert b[e].store == Empty;
    }
  }

  lemma RestatedHalf(a: View, p: Pos, st: KvStatus, key: Key, prior: KvStatus)
    requires HalfFirm(a) && At(a, p, prior, key) && IsRec(a, p.sec, p.idx) && st in {PreDelete, Deleted}
    requires st == PreDelete ==> Solid(key, ValueAt(a, p))
    ensures HalfFirm(Restated(a, p, st)) && HalfFirm(DeletedView(a, p.sec, p.idx, st))
  {
    hide At, ValueAt, Solid, Restated, DeletedView;
    DeletedIsOne(a, p, prior, st, key);
  }

  /** The points of power loss while `del_kv` runs. */
  lemma DeleteRestarts(t0: seq<View>, t1: seq<View>, a: View, p: Pos, st: KvStatus, key: Key, prior: KvStatus)
    requires Guarded(a) && At(a, p, prior, key) && IsRec(a, p.sec, p.idx) && st in {PreDelete, Deleted}
    requires st == PreDelete && NoGc(a) ==> Solid(key, ValueAt(a, p))
    requires t1 == t0 + [Restated(a, p, st)]
                 + (if a[p.sec].dirt == Clean then [DeletedView(a, p.sec, p.idx, st)] else [])
    ensures AllRestart(t1, |t0|, !NoGc(a)) && Guarded(DeletedView(a, p.sec, p.idx, st))
    ensures LagKept(a, DeletedView(a, p.sec, p.idx, st))
  {
    hide Guarded, Solid, At, NoGc, Restart, Restated, DeletedView, LagKept;
    var m, b := Restated(a, p, st), DeletedView(a, p.sec, p.idx, st);
    RestatedGuarded(a, p, st, key, prior);
    RestatedHeaders(a, p, st);
    if NoGc(m) {
      GuardedRestarts(m);
    }
    if NoGc(b) {
      GuardedRestarts(b);
    }
    assert t1[|t0|] == m && (|t1| > |t0| + 1 ==> t1[|t0| + 1] == b);
  }

  // ----- a record is added -----

  lemma StageHeader(s: Sector, t: Sector, key: Key, value: Value)
    requires Stage(s, t, key, value)
    ensures t.store == Using && t.dirt == s.dirt
  {
    if t != Appended(s, key, value) {
      var r: Rec :| t == WithRec(s, r) && r.off == s.End() && r.status in {Unused, PreWrite}
                    && r.short == 0 && (r.written == 4 || (r.key == key && r.value == value));
    }
  }

  /** Every recorded view has the shape of a store. */
  ghost predicate AllShaped(trace: seq<View>, size: nat) {
    forall t {:trigger trace[t]} :: 0 <= t < |trace| ==> Shaped(trace[t], size)
  }

  lemma StageRestarts(a: View, v: View, sec: nat, key: Key, value: Value, size: nat)
    requires sec < |a| == |v| && v == a[sec := v[sec]] && Stage(a[sec], v[sec], key, value)
    requires Guarded(a) && Shaped(a, size) && Shaped(v, size) && size <= U32_LIMIT
    requires NoGc(a) ==>
               ReserveBeside(a, sec) && Tame(a, key, value) && Storable(key, value) &&
               (Even(a[sec]) || FirmValue(key, value))
    ensures NoGc(v) <==> NoGc(a)
    ensures NoGc(v) ==> Restart(v)
  {
    hide Settled, Exact, Stage, Shaped, HalfFirm, TameAt, FirmValue, Lag;
    StageHeader(a[sec], v[sec], key, value);
    assert forall i :: 0 <= i < |a| ==> v[i].dirt == a[i].dirt;
    if NoGc(v) {
      StageRereads(a, v, sec, key, value, size);
      StageHalf(a, v, sec, key, value);
      var e :| 0 <= e < |a| && e != sec && a[e].store == Empty;
      assert v[e].store == Empty;
    }
  }

  /** A record being added is not half-deleted. */
  lemma StageHalf(a: View, v: View, sec: nat, key: Key, value: Value)
    requires sec < |a| == |v| && v == a[sec := v[sec]] && Stage(a[sec], v[sec], key, value) && HalfFirm(a)
    ensures HalfFirm(v)
  {
    hide At, ValueAt, Solid, Stage;
    forall p, k | At(v, p, PreDelete, k) ensures Solid(k, ValueAt(v, p)) {
      StageAt(a, sec, v[sec], key, value, p, PreDelete, k);
    }
  }

  lemma StagesRestart(trace: seq<View>, from: nat, a: View, sec: nat, key: Key, value: Value, size: nat)
    requires Stages(trace, from, a, sec, key, value) && AllShaped(trace, size) && Guarded(a) && Shaped(a, size)
    requires size <= U32_LIMIT
    requires NoGc(a) ==>
               ReserveBeside(a, sec) && Tame(a, key, value) && Storable(key, value) &&
               (Even(a[sec]) || FirmValue(key, value))
    ensures AllRestart(trace, from, !NoGc(a))
  {
    hide Guarded, Stage, Shaped, Tame, FirmValue, NoGc, Restart, ReserveBeside, Even;
    forall t | from <= t < |trace| ensures if NoGc(trace[t]) then Restart(trace[t]) else !NoGc(a) {
      StageRestarts(a, trace[t], sec, key, value, size);
    }
  }

  /** A record added leaves a view just as good. */
  lemma AppendedGuarded(a: View, sec: nat, key: Key, value: Value)
    requires Guarded(a) && sec < |a| && Storable(key, value) && (Even(a[sec]) || FirmValue(key, value))
    requires NoGc(a) ==> ReserveBeside(a, sec)
    ensures var b := a[sec := Appended(a[sec], key, value)];
            Guarded(b) && LagKept(a, b) && (NoGc(b) ==> NoGc(a) && ReserveBeside(b, sec))
  {
    hide Settled, Exact, HalfFirm, FirmValue, Even, Appended, LagKept;
    var b := a[sec := Appended(a[sec], key, value)];
    AppendedKeeps(a, sec, key, value);
    AppendedParts(a[sec], key, value);
    if NoGc(b) {
      assert NoGc(a) by {
        forall i | 0 <= i < |a| ensures a[i].dirt != Gc {
          assert b[i].dirt == a[i].dirt;
        }
      }
      LastIsStage(a[sec], key, value);
      StageHalf(a, b, sec, key, value);
      var e :| 0 <= e < |a| && e != sec && a[e].store == Empty;
      assert b[e].store == Empty && e in Empties(b);
    }
  }

  /** The points of power loss while a record is added. */
  lemma AddRestarts(t0: seq<View>, t1: seq<View>, a: View, sec: nat, key: Key, value: Value, size: nat)
    requires sec < |a| && AddGuard(a, sec, key, value) && Shaped(a, size) && AllShaped(t1, size) && size <= U32_LIMIT
    requires Storable(key, value) && (Even(a[sec]) || FirmValue(key, value)) && Stages(t1, |t0|, a, sec, key, value)
    ensures var b := a[sec := Appended(a[sec], key, value)];
            AllRestart(t1, |t0|, !NoGc(a)) && Guarded(b) && (NoGc(b) ==> NoGc(a) && ReserveBeside(b, sec))
  {
    hide Guarded, Shaped, AllShaped, Even, Appended, Stages, AllRestart, NoGc, Tame, ReserveBeside, FirmValue;
    StagesRestart(t1, |t0|, a, sec, key, value, size);
    AppendedGuarded(a, sec, key, value);
  }

  lemma AppendedMarks(a: View, sec: nat, key: Key, value: Value)
    requires sec < |a|
    ensures NoGc(a[sec := Appended(a[sec], key, value)]) <==> NoGc(a)
  {
    hide Appended;
    AppendedParts(a[sec], key, value);
    var b := a[sec := Appended(a[sec], key, value)];
    assert forall i :: 0 <= i < |a| ==> b[i].dirt == a[i].dirt;
  }

  // ----- the allocator leaves a reserve -----

  lemma ChosenLeaves(a: View, size: nat, oldest: nat, need: nat, t: nat)
    requires Quiescent(a) && Chosen(a, size, oldest, need, false, t)
    ensures Booting(a) && ReserveBeside(a, t)
  {
    forall i | 0 <= i < |a| ensures a[i].store in {Empty, Using} && a[i].dirt in {Clean, Dirty} {
      assert RestSector(a[i], false);
    }
    ChosenReserve(a, size, oldest, need, t);
  }

  lemma ChosenReserve(a: View, size: nat, oldest: nat, need: nat, t: nat)
    requires Empties(a) != {} && Chosen(a, size, oldest, need, false, t)
    ensures ReserveBeside(a, t)
  {
    var e :| e in Empties(a);
    if e == t {
      assert |Empties(a) - {t}| > 0;
      var f :| f in Empties(a) - {t};
    }
  }

  // ----- records that can be laid anywhere -----

  /** Every value a boot would find can be laid behind left-over bytes. */
  ghost predicate MapFirm(a: View) {
    forall k :: Recovered(a, k).Some? ==> Solid(k, Recovered(a, k).value)
  }

  /** A collection can move every record anywhere. */
  ghost predicate Movable(a: View) {
    AllEven(a) || MapFirm(a)
  }

  /** Recovery can move every half-deleted record anywhere. */
  ghost predicate Placeable(a: View) {
    AllEven(a) || HalfFirm(a)
  }

  lemma MovableKept(a: View, b: View)
    requires SameMap(a, b) && LagKept(a, b)
    ensures Movable(a) ==> Movable(b)
  {
    hide Recovered, Solid, Lag;
    if AllEven(a) {
      EvenStays(a, b);
    }
    assert forall k :: Recovered(a, k) == Recovered(b, k);
  }

  lemma LiveSolid(a: View, p: Pos, key: Key)
    requires Movable(a) && Sane(a) && At(a, p, Write, key)
    ensures AllEven(a) || Solid(key, ValueAt(a, p))
  {
    hide Solid, Lag, At, ValueAt;
    LookupIs(a, Write, key, p);
    assert Recovered(a, key) == Some(ValueAt(a, p));
  }

  lemma HalfSolid(a: View, p: Pos, key: Key)
    requires Placeable(a) && At(a, p, PreDelete, key)
    ensures AllEven(a) || Solid(key, ValueAt(a, p))
  {
    hide Solid, Lag;
  }

  lemma DeletedLag(a: View, p: Pos, st: KvStatus)
    requires IsRec(a, p.sec, p.idx)
    ensures LagKept(a, DeletedView(a, p.sec, p.idx, st))
  {
    hide Lag;
    StatusLag(a[p.sec], p.idx, st);
  }

  lemma AppendedLag(a: View, sec: nat, key: Key, value: Value)
    requires sec < |a|
    ensures LagKept(a, a[sec := Appended(a[sec], key, value)])
  {
    hide Lag, Appended;
    AppendedParts(a[sec], key, value);
  }

  lemma PlaceStays(a: View, b: View, key: Key, value: Value)
    requires LagKept(a, b) && (AllEven(a) || Solid(key, value))
    ensures AllEven(b) || Solid(key, value)
  {
    hide Solid, AllEven, LagKept;
    if AllEven(a) {
      EvenStays(a, b);
    }
  }

  lemma PreparedValue(a: View, p: Pos, prior: KvStatus)
    requires IsRec(a, p.sec, p.idx)
    ensures ValueAt(Prepared(a, p, prior), p) == ValueAt(a, p)
  {
  }

  lemma CopyGuarded(a: View, p: Pos, sec: nat)
    requires CopyGuard(a, p, sec)
    ensures Guarded(a)
  {
  }

  lemma PlaceHere(a: View, sec: nat, key: Key, value: Value)
    requires sec < |a| && (AllEven(a) || Solid(key, value))
    ensures Even(a[sec]) || Solid(key, value)
  {
    hide Solid, Lag;
  }

  lemma SolidFirm(r: Rec)
    requires RecShape(r) && r.Complete()
    ensures Solid(r.key, r.value) <==> Firm(r)
    ensures Storable(r.key, r.value)
  {
    hide FirmValue, Firm;
    CompleteFirm(r);
  }

  // ----- moving a record -----

  /** What makes every point of power loss while a record is added to `sec` fit for a boot. */
  ghost predicate AddGuard(a: View, sec: nat, key: Key, value: Value) {
    Guarded(a) && (NoGc(a) ==> ReserveBeside(a, sec) && Tame(a, key, value))
  }

  /** The same for moving record `p`, outside a collection under way. */
  ghost predicate MoveGuard(a: View, p: Pos, key: Key, gcRequest: bool) {
    Guarded(a) && (NoGc(a) ==> !gcRequest && Tame(a, key, ValueAt(a, p)))
  }

  /** The same for a copy of record `p`. */
  ghost predicate CopyGuard(a: View, p: Pos, sec: nat) {
    AddGuard(a, sec, RecAt(a, p).key, ValueAt(a, p))
  }

  /** The points of power loss while a half-deleted record is copied and deleted. */
  lemma CopyRestarts(t0: seq<View>, t1: seq<View>, t2: seq<View>, v: View, p: Pos, sec: nat, key: Key, size: nat)
    requires sec < |v| && CopyGuard(v, p, sec) && At(v, p, PreDelete, key) && IsRec(v, p.sec, p.idx)
    requires Shaped(v, size) && AllShaped(t1, size) && size <= U32_LIMIT
    requires Even(v[sec]) || Solid(key, ValueAt(v, p))
    requires Extends(t0, t1) && Stages(t1, |t0|, v, sec, key, ValueAt(v, p))
    requires var w := v[sec := Appended(v[sec], key, ValueAt(v, p))];
             && IsRec(w, p.sec, p.idx) && At(w, p, PreDelete, key)
             && t2 == t1 + [Restated(w, p, Deleted)]
                    + (if w[p.sec].dirt == Clean then [DeletedView(w, p.sec, p.idx, Deleted)] else [])
    ensures var w := v[sec := Appended(v[sec], key, ValueAt(v, p))];
            Guarded(DeletedView(w, p.sec, p.idx, Deleted)) && AllRestart(t2, |t0|, !NoGc(v))
  {
    hide Guarded, Shaped, AllShaped, Even, Appended, Stages, Restated, DeletedView, AllRestart, NoGc, Tame,
         ReserveBeside, RecShape, FirmValue;
    var value := ValueAt(v, p);
    AtParts(v, p, PreDelete, key);
    ShapedShape(v, size, p.sec, p.idx);
    SolidFirm(RecAt(v, p));
    var w := v[sec := Appended(v[sec], key, value)];
    StagesRestart(t1, |t0|, v, sec, key, value, size);
    AppendedGuarded(v, sec, key, value);
    DeleteRestarts(t1, t2, w, p, Deleted, key, PreDelete);
    assert Extends(t1, t2);
    AppendedMarks(v, sec, key, value);
    RestartChain(t1, t2, |t0|, !NoGc(v));
  }

  /** What the copy of a record needs, once the allocator has looked for room and left its marks. */
  lemma MoveGuarded(v: View, c: View, p: Pos, size: nat, oldest: nat, need: nat, gcRequest: bool, sec: nat, key: Key)
    requires Guarded(v) && Sane(v) && MarkedFrom(v, c) && At(v, p, PreDelete, key)
    requires Chosen(v, size, oldest, need, gcRequest, sec)
    requires NoGc(v) ==> !gcRequest && Tame(v, key, ValueAt(v, p))
    ensures CopyGuard(c, p, sec)
  {
    hide Guarded, MarkedFrom, Sane, Tame, Chosen, LagKept, Settled, Exact, Empties;
    GuardedFit(v);
    MarkedGuarded(v, c);
    MarkedFit(v, c);
    MarkedHeaders(v, c);
    MarkedAt(v, c, p, PreDelete, key);
    if NoGc(c) {
      AtParts(v, p, PreDelete, key);
      TameKept(v, c, key, ValueAt(v, p));
      ChosenReserve(v, size, oldest, need, sec);
      ReserveMarked(v, c, sec);
    }
  }

  lemma GuardedFit(v: View)
    requires Guarded(v)
    ensures Settled(v) && Exact(v) && (NoGc(v) ==> Empties(v) != {} && HalfFirm(v) && Booting(v))
  {
    hide Settled, Exact;
  }

  lemma MarkedHeaders(a: View, b: View)
    requires MarkedFrom(a, b)
    ensures |a| == |b| && (NoGc(a) <==> NoGc(b)) &&
            forall i :: 0 <= i < |a| ==> b[i].store == a[i].store && b[i].dirt == a[i].dirt
  {
    hide MarkedFrom;
    MarkedFromLength(a, b);
    forall i | 0 <= i < |a| ensures b[i].store == a[i].store && b[i].dirt == a[i].dirt {
      MarkedFromSame(a, b, i);
    }
  }

  lemma ReserveMarked(a: View, b: View, t: nat)
    requires MarkedFrom(a, b) && ReserveBeside(a, t)
    ensures ReserveBeside(b, t)
  {
    hide MarkedFrom;
    MarkedHeaders(a, b);
    var e :| 0 <= e < |a| && e != t && a[e].store == Empty;
    assert b[e].store == Empty;
  }

  lemma MarkedCopyGuard(a: View, b: View, p: Pos, sec: nat, key: Key)
    requires CopyGuard(a, p, sec) && Sane(a) && MarkedFrom(a, b) && At(a, p, PreDelete, key)
    ensures CopyGuard(b, p, sec) && LagKept(a, b)
  {
    hide Guarded, MarkedFrom, Sane, Tame, LagKept, Settled, Exact;
    GuardedFit(a);
    MarkedGuarded(a, b);
    MarkedFit(a, b);
    MarkedHeaders(a, b);
    MarkedAt(a, b, p, PreDelete, key);
    if NoGc(b) {
      TameKept(a, b, RecAt(a, p).key, ValueAt(a, p));
      ReserveMarked(a, b, sec);
    }
  }

  lemma AddGuarded(a: View, sec: nat, key: Key, value: Value)
    ensures AddGuard(a, sec, key, value) ==> Guarded(a)
  {
    hide Guarded;
  }

  // ----- setting a key -----

  /** The value a set replaces, if any, can be laid anywhere again. */
  ghost predicate OldSolid(a: View, key: Key, value: Option<Value>) {
    value.Some? && Stored(a, key).Some? ==> Solid(key, Stored(a, key).value)
  }

  lemma DeletedLagAt(a: View, p: Pos, st: KvStatus, t: nat)
    requires IsRec(a, p.sec, p.idx) && t < |a|
    ensures |DeletedView(a, p.sec, p.idx, st)| == |a| && Lag(DeletedView(a, p.sec, p.idx, st)[t]) == Lag(a[t])
    ensures Even(DeletedView(a, p.sec, p.idx, st)[t]) <==> Even(a[t])
  {
    hide Lag;
    StatusLag(a[p.sec], p.idx, st);
  }

  lemma RoomEven(base: View, a: View, sec: nat, key: Key, value: Value)
    requires LagKept(base, a) && sec < |a|
    ensures Storable(key, value) && (AllEven(base) || FirmValue(key, value)) ==> Even(a[sec]) || FirmValue(key, value)
  {
    hide Lag, FirmValue;
  }

  /** After the old record was half-deleted the new one can be added. */
  lemma HalvedGuard(t0: seq<View>, t1: seq<View>, a: View, p: Pos, key: Key, sec: nat, value: Value)
    requires Guarded(a) && At(a, p, Write, key) && IsRec(a, p.sec, p.idx) && Solid(key, ValueAt(a, p))
    requires ReserveBeside(a, sec) && Tame(a, key, value)
    requires t1 == t0 + [Restated(a, p, PreDelete)] + (if a[p.sec].dirt == Clean then [HalfDeleted(a, p)] else [])
    ensures AllRestart(t1, |t0|, !NoGc(a)) && AddGuard(HalfDeleted(a, p), sec, key, value)
    ensures (NoGc(HalfDeleted(a, p)) <==> NoGc(a))
  {
    hide Guarded, At, Solid, ReserveBeside, Tame, NoGc, AllRestart, DeletedView, Restated, LagKept;
    DeleteRestarts(t0, t1, a, p, PreDelete, key, Write);
    RestatedHeaders(a, p, PreDelete);
    TameKept(a, HalfDeleted(a, p), key, value);
  }

  // ----- stores at rest, collections -----

  lemma RestingGuarded(a: View, gc: int)
    requires Resting(a, gc) && Settled(a) && Exact(a) && (NoGc(a) ==> Empties(a) != {})
    ensures Guarded(a)
  {
    hide Settled, Exact, Lookup, Empties;
    RestingNoPreDelete(a, gc);
    forall p, k ensures !At(a, p, PreDelete, k) {
      NothingStored(a, PreDelete, k);
    }
    if NoGc(a) {
      forall i | 0 <= i < |a| ensures a[i].store in {Empty, Using} && a[i].dirt in {Clean, Dirty} {
        assert RestSector(a[i], i == gc);
      }
    }
  }

  /** While a sector is marked for collection there is nothing to show. */
  lemma MarkedGc(a: View, g: nat)
    requires g < |a| && a[g].dirt == Gc
    ensures !NoGc(a)
  {
  }

  lemma UnderGc(a: View, g: nat)
    requires g < |a| && a[g].dirt == Gc && Settled(a) && Exact(a)
    ensures !NoGc(a) && Guarded(a)
  {
    hide Settled, Exact;
  }

  /** An emptied sector is erased and formatted. */
  lemma FormatRestarts(t0: seq<View>, t1: seq<View>, c: View, g: nat)
    requires Resting(c, g) && Settled(c) && Exact(c) && g < |c| && c[g].store == Using
    requires forall i :: 0 <= i < |c[g].recs| ==> c[g].recs[i].status != Write
    requires t1 == t0 + [c[g := ERASED_SECTOR], c[g := EMPTY_SECTOR]]
    ensures AllRestart(t1, |t0|, true)
  {
    hide Settled, Exact, Resting, Restart;
    ErasedRestarts(c, g, ERASED_SECTOR);
    ErasedRestarts(c, g, EMPTY_SECTOR);
    assert t1[|t0|] == c[g := ERASED_SECTOR] && t1[|t0| + 1] == c[g := EMPTY_SECTOR];
  }

  lemma ErasedRestarts(c: View, g: nat, s: Sector)
    requires Resting(c, g) && Settled(c) && Exact(c) && g < |c| && s in {ERASED_SECTOR, EMPTY_SECTOR}
    ensures Restart(c[g := s])
  {
    hide SectorSettled, SectorExact, Lag, Lookup;
    var v := c[g := s];
    EmptyFits();
    RestingNoPreDelete(c, g);
    forall i | 0 <= i < |v| ensures v[i].store in {StoreUnused, Empty, Using} &&
        v[i].dirt in {DirtUnused, Clean, Dirty} {
      if i != g {
        assert RestSector(c[i], false);
      }
    }
    assert v[g].store in {StoreUnused, Empty};
    forall p, k ensures !At(v, p, PreDelete, k) {
      NothingStored(c, PreDelete, k);
      assert !At(c, p, PreDelete, k);
    }
    FitRestarts(v);
  }

  lemma EmptyFits()
    ensures SectorSettled(EMPTY_SECTOR) && SectorExact(EMPTY_SECTOR) && SectorSettled(ERASED_SECTOR)
    ensures SectorExact(ERASED_SECTOR)
    ensures Lag(EMPTY_SECTOR) == 0 && Lag(ERASED_SECTOR) == 0
  {
    EmptyExact();
  }
}
