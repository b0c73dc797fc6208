/**
  Setting and deleting a key, seen from the map: what is stored afterwards, and what a boot would
  recover at every point of power loss on the way.
*/
module KvSet {
  import opened Bytes
  import opened NorFlash
  import opened KvLayout
  import opened KvImage
  import opened KvWalk
  import opened KvView
  import opened KvModel
  import opened KvRest
  import opened KvRoom
  import opened KvGc

  /** The part of `fdb_err_t` these operations return. */
  datatype Error = NoErr | KvNameErr | SavedFull

  /** A boot from `v` finds the old or the new value of `key` and the old value of every other key. */
  ghost predicate OldOrNew(v: View, base: View, key: Key, now: Option<Value>) {
    && Sane(v) && (forall k :: k != key ==> Recovered(v, k) == Recovered(base, k))
    && Recovered(v, key) in {Recovered(base, key), now}
  }

  ghost predicate AllOldOrNew(trace: seq<View>, from: nat, base: View, key: Key, now: Option<Value>) {
    forall t {:trigger trace[t]} :: from <= t < |trace| ==> OldOrNew(trace[t], base, key, now)
  }

  /** `v` recovers to the map of `base` with `key` set to `now`. */
  ghost predicate Landed(v: View, base: View, key: Key, now: Option<Value>) {
    forall k :: Recovered(v, k) == if k == key then now else Recovered(base, k)
  }

  lemma SameIsOldOrNew(trace: seq<View>, from: nat, base: View, key: Key, now: Option<Value>)
    requires AllSame(trace, from, base)
    ensures AllOldOrNew(trace, from, base, key, now)
  {
    hide Sane, Recovered;
  }

  /** Points before `v` and points counted from `v`, where `v` still holds the old map. */
  lemma OldThen(t0: seq<View>, t1: seq<View>, from: nat, base: View, v: View, key: Key, now: Option<Value>)
    requires from <= |t0| && AllOldOrNew(t0, from, base, key, now) && SameMap(base, v)
    requires Extends(t0, t1) && AllOldOrNew(t1, |t0|, v, key, now)
    ensures AllOldOrNew(t1, from, base, key, now)
  {
    hide Sane, Recovered;
    forall t | from <= t < |t1| ensures OldOrNew(t1[t], base, key, now) {
      if t < |t0| {
        assert t1[..|t0|][t] == t0[t];
      } else {
        assert OldOrNew(t1[t], v, key, now);
      }
    }
  }

  /** The same where `v` already holds the new map. */
  lemma NewThen(t0: seq<View>, t1: seq<View>, from: nat, base: View, v: View, key: Key, now: Option<Value>)
    requires from <= |t0| && AllOldOrNew(t0, from, base, key, now) && Landed(v, base, key, now)
    requires Extends(t0, t1) && AllSame(t1, |t0|, v)
    ensures AllOldOrNew(t1, from, base, key, now)
  {
    hide Sane, Recovered;
    forall t | from <= t < |t1| ensures OldOrNew(t1[t], base, key, now) {
      if t < |t0| {
        assert t1[..|t0|][t] == t0[t];
      } else {
        assert Sane(t1[t]) && SameMap(v, t1[t]);
        assert Recovered(t1[t], key) == Recovered(v, key) == now;
      }
    }
  }

  // ----- the store while one record is half-deleted -----

  /** At rest but for the record at `p`. */
  ghost predicate RestBut(v: View, p: Pos) {
    forall i :: 0 <= i < |v| ==>
      && v[i].store in {Empty, Using} && v[i].dirt in {Clean, Dirty}
      && forall j :: 0 <= j < |v[i].recs| && Pos(i, j) != p ==> AtRest(v[i].recs[j])
  }

  lemma RestingIsBut(a: View, p: Pos)
    requires Resting(a, -1)
    ensures RestBut(a, p)
  {
    forall i | 0 <= i < |a|
      ensures a[i].store in {Empty, Using} && a[i].dirt in {Clean, Dirty} &&
              forall j :: 0 <= j < |a[i].recs| && Pos(i, j) != p ==> AtRest(a[i].recs[j])
    {
      assert RestSector(a[i], false);
    }
  }

  lemma RestatedRests(a: View, p: Pos, st: KvStatus)
    requires RestBut(a, p) && IsRec(a, p.sec, p.idx)
    ensures var b := DeletedView(a, p.sec, p.idx, st); RestBut(b, p) && Empties(b) == Empties(a) && LagKept(a, b)
  {
    var b := DeletedView(a, p.sec, p.idx, st);
    forall i | 0 <= i < |b| && i != p.sec ensures b[i] == a[i] {}
    StatusLag(a[p.sec], p.idx, st);
  }

  lemma AddedRests(a: View, p: Pos, t: nat, key: Key, value: Value)
    requires RestBut(a, p) && t < |a| && (a[t].store == Using || |Empties(a)| > 1)
    ensures var b := a[t := Appended(a[t], key, value)];
            RestBut(b, p) && (Empties(b) != {} <==> Empties(a) != {}) && LagKept(a, b)
  {
    hide Appended, Lag;
    AppendedParts(a[t], key, value);
    var b := a[t := Appended(a[t], key, value)];
    forall i | 0 <= i < |b| && i != t ensures b[i] == a[i] {}
    if a[t].store == Using {
      assert Empties(b) == Empties(a);
    } else {
      assert t in Empties(a) by { assert a[t].store == Empty; }
      assert Empties(b) == Empties(a) - {t};
      assert |Empties(b)| == |Empties(a)| - 1;
    }
  }

  lemma NowRests(a: View, p: Pos)
    requires RestBut(a, p) && Sane(a) && Empties(a) != {} && (IsRec(a, p.sec, p.idx) ==> AtRest(RecAt(a, p)))
    ensures Quiescent(a)
  {
    forall i | 0 <= i < |a| ensures RestSector(a[i], false) {
      forall j | 0 <= j < |a[i].recs| ensures AtRest(a[i].recs[j]) {
        if Pos(i, j) == p {
          assert RecAt(a, p) == a[i].recs[j];
        }
      }
    }
  }

  // ----- the steps of set_kv -----

  /** The new record is written: before its WRITE the old map holds, from then on the new one. */
  lemma CreateStep(t0: seq<View>, t1: seq<View>, a: View, sec: nat, key: Key, value: Value)
    requires Sane(a) && Stored(a, key) == None && Extends(t0, t1) && Stages(t1, |t0|, a, sec, key, value)
    ensures sec < |a| && AllOldOrNew(t1, |t0|, a, key, Some(value))
    ensures var b := a[sec := Appended(a[sec], key, value)];
            && Sane(b) && Landed(b, a, key, Some(value)) && Stored(b, key) == Some(value)
            && (forall k :: k != key ==> Stored(b, k) == Stored(a, k))
            && (forall k :: Lookup(b, PreDelete, k) == Lookup(a, PreDelete, k))
  {
    hide Sane, Lookup, Stage, Appended;
    AddRecord(a, sec, Appended(a[sec], key, value), key, value) by { LastIsStage(a[sec], key, value); }
    forall t | |t0| <= t < |t1| ensures OldOrNew(t1[t], a, key, Some(value)) {
      AddRecord(a, sec, t1[t][sec], key, value);
      assert t1[t] == a[sec := t1[t][sec]];
    }
  }

  /** `fdb_kv_del`: the record goes straight to DELETED. */
  lemma DeleteStep(t0: seq<View>, t1: seq<View>, a: View, p: Pos, key: Key)
    requires Quiescent(a) && At(a, p, Write, key) && IsRec(a, p.sec, p.idx)
    requires t1 == t0 + [Restated(a, p, Deleted)]
                 + (if a[p.sec].dirt == Clean then [DeletedView(a, p.sec, p.idx, Deleted)] else [])
    ensures var b := DeletedView(a, p.sec, p.idx, Deleted);
            && Quiescent(b) && Stored(b, key) == None && (forall k :: k != key ==> Stored(b, k) == Stored(a, k))
            && LagKept(a, b)
    ensures Extends(t0, t1) && AllOldOrNew(t1, |t0|, a, key, None)
  {
    hide Sane, At, Lookup, Restated, DeletedView, OneRestated, RestSector, Empties, Lag;
    var m, b := Restated(a, p, Deleted), DeletedView(a, p.sec, p.idx, Deleted);
    RestingNoPreDelete(a, -1);
    DeletedIsOne(a, p, Write, Deleted, key);
    DirectDelete(a, m, p, key);
    DirectDelete(a, b, p, key);
    RestingIsBut(a, p);
    RestatedRests(a, p, Deleted);
    DeletedIsAtRest(a, p, Deleted);
    NowRests(b, p);
    assert t1[|t0|] == m && (|t1| > |t0| + 1 ==> t1[|t0| + 1] == b);
  }

  lemma DeletedIsAtRest(a: View, p: Pos, st: KvStatus)
    requires IsRec(a, p.sec, p.idx) && st == Deleted
    ensures var b := DeletedView(a, p.sec, p.idx, st); IsRec(b, p.sec, p.idx) ==> AtRest(RecAt(b, p))
  {
  }

  lemma RestsMap(a: View, b: View)
    requires Quiescent(a) && Quiescent(b) && SameMap(a, b)
    ensures forall k :: Stored(b, k) == Stored(a, k)
  {
    hide Sane, Lookup, Empties;
    RestingNoPreDelete(a, -1);
    RestingNoPreDelete(b, -1);
    assert forall k :: Recovered(a, k) == Recovered(b, k);
  }

  /** Half-deleting a record leaves the room that was found. */
  lemma RoomStays(a: View, size: nat, p: Pos, info: SecInfo, need: nat)
    requires Settled(a) && IsRec(a, p.sec, p.idx) && RecAt(a, p).Complete() && RoomAt(info, a, size, info.sec, need)
    ensures RoomAt(info, HalfDeleted(a, p), size, info.sec, need)
  {
    hide Settled, JustOpened, DeletedView;
    HalfDeletedSector(a, p);
  }

  lemma HalfDeletedSector(a: View, p: Pos)
    requires Settled(a) && IsRec(a, p.sec, p.idx) && RecAt(a, p).Complete()
    ensures var v := HalfDeleted(a, p);
            && |v| == |a| && v[p.sec].store == a[p.sec].store && v[p.sec].End() == a[p.sec].End()
            && (!JustOpened(a[p.sec]) ==> !JustOpened(v[p.sec])) &&
               forall i :: 0 <= i < |a| && i != p.sec ==> v[i] == a[i]
  {
    hide SectorSettled, JustOpened, Lag, SectorExact;
    StatusKeepsSector(a[p.sec], p.idx, PreDelete);
    DirtyJustOpened(SetRecStatus(a[p.sec], p.idx, PreDelete), Dirty);
  }

  lemma DirtyJustOpened(s: Sector, d: Dirt)
    ensures JustOpened(s.(dirt := d)) <==> JustOpened(s)
  {
  }

  /** The chosen sector after the half-delete: in use, or one of several empty ones. */
  lemma ChosenStore(a: View, size: nat, oldest: nat, need: nat, sec: nat)
    requires Chosen(a, size, oldest, need, false, sec)
    ensures sec < |a| && (a[sec].store == Using || (a[sec].store == Empty && |Empties(a)| > 1))
  {
  }

  /** A finished set without an old record. */
  lemma SetNewRests(a: View, t: nat, key: Key, value: Value)
    requires Quiescent(a) && t < |a| && (a[t].store == Using || |Empties(a)| > 1)
    requires Sane(a[t := Appended(a[t], key, value)])
    ensures var b := a[t := Appended(a[t], key, value)]; Quiescent(b) && LagKept(a, b)
  {
    hide Sane, RestSector, Empties, Appended, Lag;
    var p := Pos(|a|, 0);
    RestingIsBut(a, p);
    AddedRests(a, p, t, key, value);
    NowRests(a[t := Appended(a[t], key, value)], p);
  }

  /** A finished set that replaced the record at `p`. */
  lemma SetOldRests(a: View, p: Pos, t: nat, key: Key, value: Value)
    requires Quiescent(a) && IsRec(a, p.sec, p.idx) && t < |a| && (a[t].store == Using || |Empties(a)| > 1)
    ensures var v := HalfDeleted(a, p);
            && t < |v| && LagKept(a, v)
            && var w := v[t := Appended(v[t], key, value)];
               && IsRec(w, p.sec, p.idx) && RecAt(w, p) == RecAt(v, p)
               && var b := DeletedView(w, p.sec, p.idx, Deleted); (Sane(b) ==> Quiescent(b)) && LagKept(a, b)
  {
    hide Sane, RestSector, Empties, Appended, Lag, DeletedView;
    RestingIsBut(a, p);
    RestatedRests(a, p, PreDelete);
    var v := HalfDeleted(a, p);
    DeletedParts(a, p, PreDelete, t);
    AddedRests(v, p, t, key, value);
    AppendKeepsRec(v, p, t, key, value);
    var w := v[t := Appended(v[t], key, value)];
    RestatedRests(w, p, Deleted);
    DeletedIsAtRest(w, p, Deleted);
    if Sane(DeletedView(w, p.sec, p.idx, Deleted)) {
      NowRests(DeletedView(w, p.sec, p.idx, Deleted), p);
    }
  }

  lemma DeletedParts(a: View, p: Pos, st: KvStatus, t: nat)
    requires IsRec(a, p.sec, p.idx) && t < |a|
    ensures var v := DeletedView(a, p.sec, p.idx, st);
            |v| == |a| && IsRec(v, p.sec, p.idx) && RecAt(v, p) == WithStatus(RecAt(a, p), st) &&
            v[t].store == a[t].store
  {
  }

  lemma RoomIsEnough(info: SecInfo, secs: View, size: nat, key: Key, value: Value)
    requires Shaped(secs, size) && size < U32_LIMIT && RoomAt(info, secs, size, info.sec, Size(key, value))
    ensures Size(key, value) <= size - SECTOR_HDR && (|key| < NAME_MAX ==> Storable(key, value))
  {
    SlotUsable(info, secs, size, Size(key, value));
    var s := secs[info.sec];
    assert SectorShape(s, size);
    if s.recs != [] {
      ChainedEnds(s.recs, |s.recs| - 1);
    }
  }

  /** First step of replacing a record, with its points of power loss. */
  lemma PrepareStarted(t0: seq<View>, t1: seq<View>, a: View, p: Pos, key: Key)
    requires Quiescent(a) && At(a, p, Write, key) && IsRec(a, p.sec, p.idx)
    requires t1 == t0 + [Restated(a, p, PreDelete)] + (if a[p.sec].dirt == Clean then [HalfDeleted(a, p)] else [])
    ensures var b := HalfDeleted(a, p);
            && Sane(b) && SameMap(a, b) && At(b, p, PreDelete, key) && Stored(b, key) == None
            && (forall k ::
                  k != key ==> Stored(b, k) == Stored(a, k) && Lookup(b, PreDelete, k) == Lookup(a, PreDelete, k))
    ensures AllSame(t1, |t0|, a) && Extends(t0, t1)
  {
    hide Sane, At, Lookup, Restated, DeletedView, SameMap, AllSame, Quiescent;
    QuiescentRests(a);
    SameMapSelf(a);
    AllSameNone(t0, a);
    PrepareStep(t0, t1, |t0|, a, a, p, key);
  }

  /** Last step, with its points of power loss. */
  lemma FinishReplace(t0: seq<View>, t1: seq<View>, w: View, p: Pos, key: Key)
    requires Sane(w) && At(w, p, PreDelete, key) && Stored(w, key).Some? && IsRec(w, p.sec, p.idx)
    requires t1 == t0 + [Restated(w, p, Deleted)]
                 + (if w[p.sec].dirt == Clean then [DeletedView(w, p.sec, p.idx, Deleted)] else [])
    ensures var b := DeletedView(w, p.sec, p.idx, Deleted); Sane(b) && (forall k :: Stored(b, k) == Stored(w, k))
    ensures AllSame(t1, |t0|, w) && Extends(t0, t1)
  {
    hide Sane, At, Lookup, Restated, DeletedView, SameMap, AllSame;
    SameMapSelf(w);
    AllSameNone(t0, w);
    FinishStep(t0, t1, |t0|, w, w, p, key);
  }

  lemma LandedAfter(a: View, v: View, w: View, key: Key, now: Option<Value>)
    requires SameMap(a, v) && Landed(w, v, key, now)
    ensures Landed(w, a, key, now)
  {
    hide Recovered;
  }
}
