/**
  Collecting a sector. While its records move out one sector always has room: either one still
  empty, or one that this collection opened and that holds no more than has been moved so far.
*/
module KvGc {
  import opened Bytes
  import opened KvLayout
  import opened KvImage
  import opened KvWalk
  import opened KvView
  import opened KvModel
  import opened KvRest
  import opened KvRoom
  import opened Ring

  /**
    Sector `e` can take any record of sector `g` from offset `off` on; at least `floor` empty sectors are
    left, but for `e`.
  */
  ghost predicate RoomIn(secs: View, g: nat, off: nat, floor: nat, e: nat) {
    && e < |secs| && e != g && secs[e].dirt == Clean && secs[e].End() <= off
    && ((secs[e].store == Empty && |Empties(secs)| >= floor)
        || (secs[e].store == Using && |Empties(secs)| + 1 >= floor))
  }

  ghost predicate HasRoom(secs: View, g: nat, off: nat, floor: nat) {
    exists e :: RoomIn(secs, g, off, floor, e)
  }

  lemma RoomGrows(secs: View, g: nat, off: nat, more: nat, floor: nat)
    requires HasRoom(secs, g, off, floor) && off <= more
    ensures HasRoom(secs, g, more, floor)
  {
    var e: nat :| RoomIn(secs, g, off, floor, e);
    assert RoomIn(secs, g, more, floor, e);
  }

  /** With an empty sector in reserve there is room to begin with. */
  lemma RoomAtStart(secs: View, size: nat, g: nat)
    requires Shaped(secs, size) && Empties(secs) != {} && g < |secs| && secs[g].store == Using
    ensures HasRoom(secs, g, SECTOR_HDR, |Empties(secs)|)
  {
    var e :| e in Empties(secs);
    assert SectorShape(secs[e], size);
    assert RoomIn(secs, g, SECTOR_HDR, |Empties(secs)|, e);
  }

  /** Room for the rest of the sector is room for the next record: the allocator cannot fail. */
  lemma RoomIsChoice(a: View, size: nat, g: nat, j: nat, floor: nat, oldest: nat)
    requires Shaped(a, size) && IsRec(a, g, j) && HasRoom(a, g, a[g].recs[j].off, floor) && a[g].recs[j].Complete()
    ensures !NoChoice(Prepared(a, Pos(g, j), Write), size, a[g].recs[j].Len(), true)
  {
    hide RecShape;
    var e: nat :| RoomIn(a, g, a[g].recs[j].off, floor, e);
    var v := Prepared(a, Pos(g, j), Write);
    assert v[e] == a[e];
    assert SectorShape(a[g], size);
    ChainedEnds(a[g].recs, j);
    assert Fits(v[e], size, a[g].recs[j].Len(), true);
  }

  /** The view after record `j` of sector `g` moved to `t`. */
  lemma MovedShape(a: View, b: View, g: nat, j: nat, t: int, size: nat, oldest: nat)
    requires IsRec(a, g, j) && a[g].dirt == Gc && a[g].recs[j].Complete()
    requires MovedTo(a, b, Pos(g, j), t, size, oldest, a[g].recs[j].Len(), true)
    ensures 0 <= t < |a| && t != g && a[t].dirt == Clean
    ensures var r := a[g].recs[j]; b == a[t := Appended(a[t], r.key, r.value)][g := SetRecStatus(a[g], j, Deleted)]
    ensures a[t].store == Using || (a[t].store == Empty && NoFit(a, size, Using, a[g].recs[j].Len(), true))
  {
    var p, r := Pos(g, j), a[g].recs[j];
    var v := Prepared(a, p, Write);
    assert v == a[g := SetRecStatus(a[g], j, PreDelete)];
    assert a[t] == v[t];
    FitsElsewhere(a, v, g, size, r.Len());
    assert RecAt(v, p) == WithStatus(r, PreDelete);
    assert SetRecStatus(v[g], j, Deleted) == SetRecStatus(a[g], j, Deleted);
    assert b == a[t := Appended(a[t], r.key, r.value)][g := SetRecStatus(a[g], j, Deleted)];
  }

  lemma FitsElsewhere(a: View, v: View, g: nat, size: nat, need: nat)
    requires |v| == |a| && g < |a| && a[g].dirt == Gc && v[g].dirt == Gc &&
             forall i :: 0 <= i < |a| && i != g ==> v[i] == a[i]
    ensures NoFit(v, size, Using, need, true) ==> NoFit(a, size, Using, need, true)
  {
  }

  /** One record moved: the sector under collection keeps its other records, and there is room for them. */
  lemma MoveKeepsRoom(a: View, b: View, size: nat, g: nat, j: nat, t: int, oldest: nat, floor: nat)
    requires Shaped(a, size) && IsRec(a, g, j) && a[g].dirt == Gc && a[g].store == Using && a[g].recs[j].Complete()
    requires HasRoom(a, g, a[g].recs[j].off, floor)
    requires MovedTo(a, b, Pos(g, j), t, size, oldest, a[g].recs[j].Len(), true)
    ensures HasRoom(b, g, a[g].recs[j].End(), floor)
  {
    hide RecShape, MovedTo, Appended;
    var r := a[g].recs[j];
    MovedShape(a, b, g, j, t, size, oldest);
    AppendedParts(a[t], r.key, r.value);
    var e: nat :| RoomIn(a, g, r.off, floor, e);
    assert SectorShape(a[g], size);
    ChainedEnds(a[g].recs, j);
    ShapedShape(a, size, g, j);
    SomeBytes(r);
    EmptiesAfter(a, b, g, t);
    assert Fits(a[e], size, r.Len(), true);
    if a[t].store == Empty {
      EmptyHasNoRecords(a, size, t);
      assert RoomIn(b, g, r.End(), floor, t);
    } else if t == e {
      assert RoomIn(b, g, r.End(), floor, t);
    } else {
      assert RoomIn(b, g, r.End(), floor, e);
    }
  }

  lemma AppendedParts(s: Sector, key: Key, value: Value)
    ensures var t := Appended(s, key, value);
            t.store == Using && t.dirt == s.dirt && t.End() == s.End() + Size(key, value) && |t.recs| == |s.recs| + 1
            && (forall i :: 0 <= i < |s.recs| ==> t.recs[i] == s.recs[i]) && t.recs[|s.recs|].status == Write
            && Lag(t) == Lag(s)
  {
    hide VisibleLen;
    NotJustOpened(s, key, value);
    WithRecLen(s, Rec(s.End(), Write, key, value, Size(key, value)));
  }

  lemma EmptyHasNoRecords(secs: View, size: nat, i: nat)
    requires Shaped(secs, size) && i < |secs| && secs[i].store == Empty
    ensures secs[i].End() == SECTOR_HDR
  {
  }

  lemma EmptiesAfter(a: View, b: View, g: nat, t: nat)
    requires |b| == |a| && g < |a| && t < |a| && b[t].store == Using && b[g].store == a[g].store == Using
    requires forall i :: 0 <= i < |a| && i != t ==> b[i].store == a[i].store
    ensures a[t].store == Using ==> Empties(b) == Empties(a)
    ensures a[t].store == Empty ==> Empties(b) == Empties(a) - {t} && |Empties(a)| == |Empties(b)| + 1
  {
    if a[t].store == Empty {
      assert t in Empties(a);
      assert Empties(b) == Empties(a) - {t};
    } else {
      assert Empties(b) == Empties(a);
    }
  }

  /** The store stays at rest, the moved record deleted, the rest of its sector untouched. */
  lemma MoveKeepsRest(a: View, b: View, size: nat, g: nat, j: nat, t: int, oldest: nat)
    requires Resting(a, g) && Sane(b) && IsRec(a, g, j) && a[g].dirt == Gc && a[g].store == Using
    requires a[g].recs[j].Complete()
    requires MovedTo(a, b, Pos(g, j), t, size, oldest, a[g].recs[j].Len(), true)
    ensures Resting(b, g) && DirtKept(a, b, g) && LagKept(a, b) && b[g] == SetRecStatus(a[g], j, Deleted)
  {
    hide MovedTo, Appended, Lag;
    var r := a[g].recs[j];
    MovedShape(a, b, g, j, t, size, oldest);
    AppendedParts(a[t], r.key, r.value);
    StatusLag(a[g], j, Deleted);
    forall i | 0 <= i < |b| ensures RestSector(b[i], i == g) {
      assert RestSector(a[i], i == g);
    }
  }

  /** What the walk needs to know after it moved record `j`. */
  lemma MoveDone(a: View, b: View, size: nat, g: nat, j: nat, t: int, oldest: nat, floor: nat, kv: KvInfo)
    requires Resting(a, g) && Sane(b) && Shaped(a, size) && IsRec(a, g, j) && a[g].dirt == Gc && a[g].store == Using
    requires a[g].recs[j].Complete()
    requires HasRoom(a, g, a[g].recs[j].off, floor)
    requires MovedTo(a, b, Pos(g, j), t, size, oldest, a[g].recs[j].Len(), true)
    requires RecShape(a[g].recs[j]) && Locates(kv, g, a[g].recs[j]) && a[g].recs[j].status == Write
    ensures WalkedPast(a, b, g, j, floor, kv)
  {
    hide MovedTo, Resting, Sane, Shaped, HasRoom, RecShape, Locates;
    MoveKeepsRest(a, b, size, g, j, t, oldest);
    MoveKeepsRoom(a, b, size, g, j, t, oldest, floor);
    CompleteLocated(kv, g, a[g].recs[j], Deleted);
  }

  /** Nothing to move: the walk goes on past the record. */
  lemma SkipDone(a: View, size: nat, g: nat, j: nat, floor: nat, kv: KvInfo)
    requires Resting(a, g) && Shaped(a, size) && IsRec(a, g, j) && a[g].dirt == Gc && a[g].store == Using
    requires Visible(a[g].recs[j])
    requires HasRoom(a, g, a[g].recs[j].off, floor) && RecShape(a[g].recs[j]) && Locates(kv, g, a[g].recs[j])
    requires a[g].recs[j].status != Write
    ensures WalkedPast(a, a, g, j, floor, kv)
  {
    hide Resting, HasRoom, RecShape, Locates;
    EndBehind(a, size, g, j);
    RoomGrows(a, g, a[g].recs[j].off, a[g].recs[j].End(), floor);
  }

  /** Record `j` of sector `g`, described by `kv`, is dealt with; the rest of the sector is as it was. */
  ghost predicate WalkedPast(a: View, b: View, g: nat, j: nat, floor: nat, kv: KvInfo) {
    && |b| == |a| && IsRec(a, g, j) && IsRec(b, g, j) && |b[g].recs| == |a[g].recs| && b[g].store == Using
    && b[g].dirt == Gc
    && Resting(b, g) && HasRoom(b, g, b[g].recs[j].End(), floor)
    && b[g].recs[j].off == a[g].recs[j].off && Visible(b[g].recs[j]) && b[g].recs[j].status != Write
    && (forall i :: 0 <= i < |a[g].recs| && i != j ==> b[g].recs[i] == a[g].recs[i])
    && RecShape(b[g].recs[j]) && Locates(kv, g, b[g].recs[j]) && DirtKept(a, b, g) && LagKept(a, b)
  }

  /** The dirty marks outside sector `g` are the same. */
  ghost predicate DirtKept(a: View, b: View, g: nat) {
    |a| == |b| && forall i :: 0 <= i < |a| && i != g ==> b[i].dirt == a[i].dirt
  }

  lemma DirtKeptSelf(a: View, g: nat)
    ensures DirtKept(a, a, g)
  {
  }

  lemma DirtKeptTrans(a: View, b: View, c: View, g: nat)
    requires DirtKept(a, b, g) && DirtKept(b, c, g)
    ensures DirtKept(a, c, g)
  {
  }

  // ----- the walk through the sector -----

  /** Record `j` joins those the walk has passed. */
  lemma WalkedOn(base: View, a: View, b: View, g: nat, j: nat, floor: nat, kv: KvInfo)
    requires WalkedPast(a, b, g, j, floor, kv) && DirtKept(base, a, g) && LagKept(base, a)
    requires forall i :: 0 <= i < j && i < |a[g].recs| ==> a[g].recs[i].status != Write
    ensures DirtKept(base, b, g) && LagKept(base, b) && |b| == |a| && IsRec(b, g, j) && |b[g].recs| == |a[g].recs|
    ensures b[g].store == Using && b[g].dirt == Gc && Resting(b, g) && HasRoom(b, g, b[g].recs[j].End(), floor)
    ensures Visible(b[g].recs[j])
    ensures forall i :: 0 <= i <= j ==> b[g].recs[i].status != Write
    ensures RecShape(b[g].recs[j]) && Locates(kv, g, b[g].recs[j])
  {
    hide Resting, HasRoom, RecShape, Locates, LagKept;
    DirtKeptTrans(base, a, b, g);
    LagKeptTrans(base, a, b);
  }

  lemma SkippedNotLive(secs: View, size: nat, g: nat, j: nat, floor: nat)
    requires Shaped(secs, size) && IsRec(secs, g, j) && HasRoom(secs, g, secs[g].recs[j].End(), floor)
    ensures forall i :: j < i < NextVisible(secs[g].recs, j) ==> secs[g].recs[i].status != Write
    ensures NextVisible(secs[g].recs, j) < |secs[g].recs| ==>
              HasRoom(secs, g, secs[g].recs[NextVisible(secs[g].recs, j)].off, floor)
  {
    hide HasRoom;
    assert SectorShape(secs[g], size);
    var n := NextVisible(secs[g].recs, j);
    if n < |secs[g].recs| {
      assert secs[g].recs[j].End() <= secs[g].recs[n].off;
      RoomGrows(secs, g, secs[g].recs[j].End(), secs[g].recs[n].off, floor);
    }
    forall i | j < i < n ensures secs[g].recs[i].status != Write {
      assert RecShape(secs[g].recs[i]);
    }
  }

  lemma EndBehind(secs: View, size: nat, g: nat, j: nat)
    requires Shaped(secs, size) && IsRec(secs, g, j)
    ensures secs[g].recs[j].off <= secs[g].recs[j].End()
  {
  }

  /** What the status and CRC of a record that was read say about it, in a resting store. */
  lemma RestingRead(kv: KvInfo, secs: View, size: nat, g: nat, j: nat)
    requires Resting(secs, g) && Shaped(secs, size) && IsRec(secs, g, j) && Visible(secs[g].recs[j])
    requires RecShape(secs[g].recs[j]) && Reports(kv, g, secs[g].recs[j])
    ensures kv.status != PreDelete && Locates(kv, g, secs[g].recs[j]) && kv.start.sec == g
    ensures kv.crcOk && kv.status == Write <==> secs[g].recs[j].status == Write
    ensures kv.crcOk && kv.status == Write ==>
              At(secs, Pos(g, j), Write, kv.name) && secs[g].recs[j].Complete() && kv.len == secs[g].recs[j].Len()
    ensures Lookup(secs, PreDelete, kv.name) == None
  {
    hide Lookup;
    assert RestSector(secs[g], true);
    assert AtRest(secs[g].recs[j]);
    RestingNoPreDelete(secs, g);
    if secs[g].recs[j].status == Write {
      CompleteIsGood(secs[g].recs[j]);
    }
  }

  // ----- the beginning and the end of a collection -----

  lemma GcStart(a: View, size: nat, g: nat)
    requires Resting(a, -1) && Shaped(a, size) && Empties(a) != {} && g < |a| && a[g].store == Using
    ensures var b := a[g := a[g].(dirt := Gc)];
            Resting(b, g) && Sane(b) && SameMap(a, b) && DirtKept(a, b, g) && LagKept(a, b) &&
            HasRoom(b, g, SECTOR_HDR, |Empties(a)|)
  {
    hide Sane, SameMap, SectorShape, VisibleLen;
    var b := a[g := a[g].(dirt := Gc)];
    forall i | 0 <= i < |b| ensures RestSector(b[i], i == g) {
      assert RestSector(a[i], false);
    }
    HeaderChangeSame(a, g, b[g]);
    RestingNoPreDelete(a, -1);
    SameRecordsSameMap(a, b);
    assert Unique(b, Write) by { SaneUnique(b); }
    RoomAtStart(a, size, g);
    var e: nat :| RoomIn(a, g, SECTOR_HDR, |Empties(a)|, e);
    assert Empties(b) == Empties(a);
    assert RoomIn(b, g, SECTOR_HDR, |Empties(a)|, e);
  }

  lemma SaneUnique(a: View)
    requires Sane(a)
    ensures Unique(a, Write)
  {
  }

  /** The points of power loss while an emptied sector is formatted. */
  lemma FormatTrace(t0: seq<View>, t1: seq<View>, t2: seq<View>, base: View, c: View, g: nat)
    requires Resting(c, g) && g < |c| && c[g].store == Using &&
             forall i :: 0 <= i < |c[g].recs| ==> c[g].recs[i].status != Write
    requires Extends(t0, t1) && AllSame(t1, |t0|, base) && SameMap(base, c)
    requires t2 == t1 + [c[g := ERASED_SECTOR], c[g := EMPTY_SECTOR]]
    ensures AllSame(t2, |t0|, base) && Extends(t0, t2) && SameMap(base, c[g := EMPTY_SECTOR])
    ensures var d := c[g := EMPTY_SECTOR];
            Quiescent(d) && |Empties(d)| == |Empties(c)| + 1 && d[g].dirt == Clean && DirtKept(c, d, g) && LagKept(c, d)
  {
    hide Sane, SameMap, AllSame, Resting, Empties, Lag;
    EmptyExact();
    CollectedErase(c, g, ERASED_SECTOR);
    CollectedErase(c, g, EMPTY_SECTOR);
    CollectedRests(c, g);
    SameMapTrans(base, c, c[g := ERASED_SECTOR]);
    SameMapTrans(base, c, c[g := EMPTY_SECTOR]);
    var m := t1 + [c[g := ERASED_SECTOR]];
    AllSameOne(t1, m, |t0|, base, c[g := ERASED_SECTOR]);
    AllSameOne(m, t2, |t0|, base, c[g := EMPTY_SECTOR]);
  }

  lemma RestingDirt(secs: View, size: nat, g: nat)
    requires Resting(secs, -1) && Shaped(secs, size) && g < |secs|
    ensures secs[g].dirt in {Clean, Dirty} && secs[g].store in {Empty, Using}
    ensures (secs[g].dirt == Dirty ==> secs[g].store == Using)
  {
    assert RestSector(secs[g], false);
    assert SectorShape(secs[g], size);
  }

  lemma QuiescentRests(secs: View)
    requires Quiescent(secs)
    ensures Resting(secs, -1) && Sane(secs) && Empties(secs) != {}
    ensures forall k :: Lookup(secs, PreDelete, k) == None && Recovered(secs, k) == Stored(secs, k)
  {
    hide Lookup, Empties;
    RestingNoPreDelete(secs, -1);
  }

  lemma RestingHasNoGc(secs: View)
    requires Resting(secs, -1)
    ensures NoGc(secs)
  {
    forall i | 0 <= i < |secs| ensures secs[i].dirt != Gc {
      assert RestSector(secs[i], false);
    }
  }

  // ----- collecting round the ring -----

  /** All sectors among the first `k` round the ring are free of garbage. */
  ghost predicate CleanBefore(secs: View, from: nat, k: nat) {
    from < |secs| && forall i :: 0 <= i < |secs| && Dist(from, |secs|, i) < k ==> secs[i].dirt == Clean
  }

  ghost predicate AllClean(secs: View) {
    forall i :: 0 <= i < |secs| ==> secs[i].dirt == Clean
  }

  lemma CleanAll(a: View, from: nat)
    requires CleanBefore(a, from, |a|)
    ensures AllClean(a)
  {
  }

  /** Nothing live is left in the sector: erasing it changes no key. */
  lemma CollectedErase(secs: View, g: nat, s: Sector)
    requires Resting(secs, g) && g < |secs| && s.recs == [] &&
             forall i :: 0 <= i < |secs[g].recs| ==> secs[g].recs[i].status != Write
    ensures Sane(secs[g := s]) && SameMap(secs, secs[g := s])
  {
    assert RestSector(secs[g], true);
    forall i | 0 <= i < |secs[g].recs| ensures secs[g].recs[i].status !in {Write, PreDelete} ||
        !secs[g].recs[i].Complete() {
      assert AtRest(secs[g].recs[i]);
    }
    RestingNoPreDelete(secs, g);
    assert SameRecords(secs, secs[g := s]);
    SameRecordsSameMap(secs, secs[g := s]);
  }

  lemma CollectedRests(secs: View, g: nat)
    requires Resting(secs, g) && g < |secs| && secs[g].store == Using && Sane(secs[g := EMPTY_SECTOR])
    ensures var t := secs[g := EMPTY_SECTOR]; Resting(t, -1) && |Empties(t)| == |Empties(secs)| + 1 && Empties(t) != {}
  {
    var t := secs[g := EMPTY_SECTOR];
    forall i | 0 <= i < |t| ensures RestSector(t[i], false) {
      if i != g {
        assert RestSector(secs[i], false);
      }
    }
    assert g in Empties(t) && Empties(secs) == Empties(t) - {g};
  }

  lemma HasRoomFloor(secs: View, g: nat, off: nat, floor: nat)
    requires HasRoom(secs, g, off, floor)
    ensures |Empties(secs)| + 1 >= floor
  {
  }
}
