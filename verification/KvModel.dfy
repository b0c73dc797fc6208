/**
  The store as a map. `Lookup` is what a search for a key finds among records of one status,
  `Recovered` what the next boot makes of the flash. Each step of an operation changes one record
  or one sector; the lemmas say what that does to both.
*/
module KvModel {
  import opened Bytes
  import opened KvLayout
  import opened KvImage
  import opened KvWalk
  import opened KvView

  /** The place of a record: sector and index in it. */
  datatype Pos = Pos(sec: nat, idx: nat)

  type Key = seq<byte>
  type Value = seq<byte>

  ghost function RecAt(secs: View, p: Pos): Rec {
    if IsRec(secs, p.sec, p.idx) then secs[p.sec].recs[p.idx] else Bare(0, Unused)
  }

  ghost function ValueAt(secs: View, p: Pos): Value {
    RecAt(secs, p).value
  }

  /** A complete record of this status and key. */
  ghost predicate At(secs: View, p: Pos, st: KvStatus, key: Key) {
    IsRec(secs, p.sec, p.idx) && RecAt(secs, p).Complete() && RecAt(secs, p).status == st && RecAt(secs, p).key == key
  }

  ghost predicate Unique(secs: View, st: KvStatus) {
    forall p, q, k :: At(secs, p, st, k) && At(secs, q, st, k) ==> p == q
  }

  ghost function Lookup(secs: View, st: KvStatus, key: Key): Option<Value> {
    if exists p :: At(secs, p, st, key) then
      var p :| At(secs, p, st, key);
      Some(ValueAt(secs, p))
    else None
  }

  /** What `fdb_kv_get` sees. */
  ghost function Stored(secs: View, key: Key): Option<Value> {
    Lookup(secs, Write, key)
  }

  /** What a boot restores: the live record, or else the one whose replacement never finished. */
  ghost function Recovered(secs: View, key: Key): Option<Value> {
    if Stored(secs, key).Some? then Stored(secs, key) else Lookup(secs, PreDelete, key)
  }

  /** At most one live and one half-deleted record per key: holds at every point of power loss. */
  ghost predicate Sane(secs: View) {
    Unique(secs, Write) && Unique(secs, PreDelete)
  }

  ghost predicate SameMap(a: View, b: View) {
    forall k :: Recovered(a, k) == Recovered(b, k)
  }

  lemma LookupIs(secs: View, st: KvStatus, key: Key, p: Pos)
    requires Unique(secs, st) && At(secs, p, st, key)
    ensures Lookup(secs, st, key) == Some(ValueAt(secs, p))
  {
  }

  lemma LookupNone(secs: View, st: KvStatus, key: Key)
    requires forall p :: !At(secs, p, st, key)
    ensures Lookup(secs, st, key) == None
  {
  }

  lemma LookupSome(secs: View, st: KvStatus, key: Key) returns (p: Pos)
    requires Lookup(secs, st, key).Some?
    ensures At(secs, p, st, key) && Lookup(secs, st, key) == Some(ValueAt(secs, p))
  {
    p :| At(secs, p, st, key) && Lookup(secs, st, key) == Some(ValueAt(secs, p));
  }

  lemma FoundStored(secs: View, key: Key, p: Pos)
    requires Sane(secs) && At(secs, p, Write, key)
    ensures Stored(secs, key) == Some(ValueAt(secs, p))
  {
    LookupIs(secs, Write, key, p);
  }

  /** Two views with the same records of a status and key give the same answer. */
  lemma LookupSame(a: View, b: View, st: KvStatus, key: Key)
    requires Unique(a, st) && Unique(b, st)
    requires forall p :: At(a, p, st, key) <==> At(b, p, st, key)
    requires forall p :: At(a, p, st, key) ==> ValueAt(a, p) == ValueAt(b, p)
    ensures Lookup(a, st, key) == Lookup(b, st, key)
  {
    if Lookup(a, st, key).Some? {
      var p := LookupSome(a, st, key);
      LookupIs(b, st, key, p);
    }
  }

  // ----- steps that change no complete record -----

  /** Same complete records in the same places; anything else may differ. */
  ghost predicate SameRecords(a: View, b: View) {
    && (forall p, st, k :: st in {Write, PreDelete} ==> (At(a, p, st, k) <==> At(b, p, st, k)))
    && (forall p, st, k :: st in {Write, PreDelete} && At(a, p, st, k) ==> ValueAt(a, p) == ValueAt(b, p))
  }

  lemma SameRecordsSameMap(a: View, b: View)
    requires SameRecords(a, b) && Sane(a)
    ensures Sane(b) && SameMap(a, b)
    ensures forall k :: Stored(a, k) == Stored(b, k) && Lookup(a, PreDelete, k) == Lookup(b, PreDelete, k)
  {
    hide At, Lookup;
    forall k ensures Stored(a, k) == Stored(b, k) && Lookup(a, PreDelete, k) == Lookup(b, PreDelete, k) {
      LookupSame(a, b, Write, k);
      LookupSame(a, b, PreDelete, k);
    }
  }

  lemma HeaderChangeSame(secs: View, sec: nat, s: Sector)
    requires sec < |secs| && s.recs == secs[sec].recs
    ensures SameRecords(secs, secs[sec := s])
  {
  }

  // ----- a record changes its status -----

  ghost function Restated(secs: View, p: Pos, st: KvStatus): View {
    if IsRec(secs, p.sec, p.idx) then secs[p.sec := SetRecStatus(secs[p.sec], p.idx, st)] else secs
  }

  lemma RestatedAt(secs: View, p: Pos, st: KvStatus, q: Pos, t: KvStatus, k: Key)
    requires IsRec(secs, p.sec, p.idx)
    ensures At(Restated(secs, p, st), q, t, k) <==>
              if q == p then t == st && RecAt(secs, p).Complete() && RecAt(secs, p).key == k else At(secs, q, t, k)
    ensures ValueAt(Restated(secs, p, st), q) == ValueAt(secs, q)
  {
  }

  /** The record at `p`, live or half-deleted, has another status in `b`; nothing else differs. */
  ghost predicate OneRestated(a: View, b: View, p: Pos, st: KvStatus, key: Key) {
    && (forall q, t, k :: At(b, q, t, k) <==> if q == p then t == st && k == key else At(a, q, t, k))
    && (forall q :: ValueAt(b, q) == ValueAt(a, q))
  }

  lemma RestatedIsOne(secs: View, p: Pos, prior: KvStatus, st: KvStatus, key: Key)
    requires At(secs, p, prior, key)
    ensures OneRestated(secs, Restated(secs, p, st), p, st, key)
  {
    forall q, t, k ensures At(Restated(secs, p, st), q, t, k) <==> if q == p then t == st && k == key
        else At(secs, q, t, k) {
      RestatedAt(secs, p, st, q, t, k);
    }
    forall q ensures ValueAt(Restated(secs, p, st), q) == ValueAt(secs, q) {
      RestatedAt(secs, p, st, q, st, key);
    }
  }

  lemma OtherKeys(a: View, b: View, p: Pos, prior: KvStatus, st: KvStatus, key: Key)
    requires Sane(a) && Sane(b) && At(a, p, prior, key) && OneRestated(a, b, p, st, key)
    ensures forall k :: k != key ==> Stored(b, k) == Stored(a, k) && Lookup(b, PreDelete, k) == Lookup(a, PreDelete, k)
  {
    hide Lookup, ValueAt;
    forall k | k != key ensures Stored(b, k) == Stored(a, k) && Lookup(b, PreDelete, k) == Lookup(a, PreDelete, k) {
      LookupSame(a, b, Write, k);
      LookupSame(a, b, PreDelete, k);
    }
  }

  /** Write to PreDelete: the record still counts until a newer one is live. */
  lemma PrepareDelete(a: View, b: View, p: Pos, key: Key)
    requires Sane(a) && At(a, p, Write, key) && Lookup(a, PreDelete, key) == None
    requires OneRestated(a, b, p, PreDelete, key)
    ensures Sane(b) && SameMap(a, b) && At(b, p, PreDelete, key) && Stored(b, key) == None
    ensures forall k :: k != key ==> Stored(b, k) == Stored(a, k) && Lookup(b, PreDelete, k) == Lookup(a, PreDelete, k)
  {
    hide At, ValueAt;
    assert forall q :: !At(a, q, PreDelete, key);
    AtStatus(a, p, Write, key);
    LookupIs(a, Write, key, p);
    LookupIs(b, PreDelete, key, p);
    LookupNone(b, Write, key);
    OtherKeys(a, b, p, Write, PreDelete, key);
  }

  lemma AtParts(secs: View, p: Pos, st: KvStatus, key: Key)
    requires At(secs, p, st, key)
    ensures IsRec(secs, p.sec, p.idx) && RecAt(secs, p) == secs[p.sec].recs[p.idx]
    ensures RecAt(secs, p).Complete() && RecAt(secs, p).status == st && RecAt(secs, p).key == key
  {
  }

  lemma AtStatus(secs: View, p: Pos, st: KvStatus, key: Key)
    requires At(secs, p, st, key)
    ensures forall t, k :: At(secs, p, t, k) <==> t == st && k == key
  {
  }

  /** PreDelete to Deleted once the newer record is live. */
  lemma FinishDelete(a: View, b: View, p: Pos, key: Key)
    requires Sane(a) && At(a, p, PreDelete, key) && Stored(a, key).Some? && OneRestated(a, b, p, Deleted, key)
    ensures Sane(b) && SameMap(a, b) && Lookup(b, PreDelete, key) == None
    ensures forall k :: Stored(b, k) == Stored(a, k)
    ensures forall k :: k != key ==> Lookup(b, PreDelete, k) == Lookup(a, PreDelete, k)
  {
    hide At, ValueAt;
    AtStatus(a, p, PreDelete, key);
    OtherKeys(a, b, p, PreDelete, Deleted, key);
    LookupNone(b, PreDelete, key);
    LookupSame(a, b, Write, key);
  }

  /** Write straight to Deleted: the key is gone. */
  lemma DirectDelete(a: View, b: View, p: Pos, key: Key)
    requires Sane(a) && At(a, p, Write, key) && Lookup(a, PreDelete, key) == None && OneRestated(a, b, p, Deleted, key)
    ensures Sane(b) && Recovered(b, key) == None && Stored(b, key) == None
    ensures forall k :: k != key ==> Stored(b, k) == Stored(a, k) && Recovered(b, k) == Recovered(a, k)
    ensures forall k :: Lookup(b, PreDelete, k) == Lookup(a, PreDelete, k)
  {
    hide At, ValueAt;
    AtStatus(a, p, Write, key);
    OtherKeys(a, b, p, Write, Deleted, key);
    LookupNone(b, Write, key);
    LookupSame(a, b, PreDelete, key);
  }

  // ----- a record is added -----

  lemma StageAt(secs: View, sec: nat, t: Sector, key: Key, value: Value, q: Pos, st: KvStatus, k: Key)
    requires sec < |secs| && Stage(secs[sec], t, key, value)
    ensures var n := Pos(sec, |secs[sec].recs|);
            && (st in {Write, PreDelete} ==>
                  (At(secs[sec := t], q, st, k) <==> if q == n then st == Write && k == key &&
                      t == Appended(secs[sec], key, value) else At(secs, q, st, k)))
            && (q != n ==> ValueAt(secs[sec := t], q) == ValueAt(secs, q))
            && (t == Appended(secs[sec], key, value) ==> ValueAt(secs[sec := t], n) == value)
  {
    var n := Pos(sec, |secs[sec].recs|);
    if t != Appended(secs[sec], key, value) {
      var r: Rec :| t == WithRec(secs[sec], r) && r.off == secs[sec].End() && r.status in {Unused, PreWrite}
                    && r.short == 0 && (r.written == 4 || (r.key == key && r.value == value));
    }
  }

  /** Before the new record is live the map is unchanged; afterwards only its key has changed. */
  lemma AddRecord(a: View, sec: nat, t: Sector, key: Key, value: Value)
    requires Sane(a) && sec < |a| && Stage(a[sec], t, key, value) && Stored(a, key) == None
    ensures var b := a[sec := t]; var done := t == Appended(a[sec], key, value);
            && Sane(b)
            && (forall k :: Stored(b, k) == if done && k == key then Some(value) else Stored(a, k))
            && (forall k :: Lookup(b, PreDelete, k) == Lookup(a, PreDelete, k))
  {
    hide At, ValueAt, Stage, Appended, Lookup;
    var b, n := a[sec := t], Pos(sec, |a[sec].recs|);
    forall q, st, k | st in {Write, PreDelete}
      ensures At(b, q, st, k) <==>
                if q == n then st == Write && k == key && t == Appended(a[sec], key, value) else At(a, q, st, k)
    {
      StageAt(a, sec, t, key, value, q, st, k);
    }
    forall q ensures q != n ==> ValueAt(b, q) == ValueAt(a, q) {
      StageAt(a, sec, t, key, value, q, Write, key);
    }
    NotYet(a, n);
    NothingStored(a, Write, key);
    forall k ensures Stored(b, k)
        == (if t == Appended(a[sec], key, value) && k == key then Some(value) else Stored(a, k)) {
      if t == Appended(a[sec], key, value) && k == key {
        StageAt(a, sec, t, key, value, n, Write, key);
        LookupIs(b, Write, key, n);
      } else {
        LookupSame(a, b, Write, k);
      }
    }
    forall k ensures Lookup(b, PreDelete, k) == Lookup(a, PreDelete, k) {
      LookupSame(a, b, PreDelete, k);
    }
  }

  lemma NotYet(secs: View, n: Pos)
    requires n.sec < |secs| && n.idx == |secs[n.sec].recs|
    ensures forall st, k :: !At(secs, n, st, k)
  {
  }

  lemma NothingStored(secs: View, st: KvStatus, key: Key)
    requires Lookup(secs, st, key) == None
    ensures forall p :: !At(secs, p, st, key)
  {
  }
}
