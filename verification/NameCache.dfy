/**
  The table that remembers where the record of a key lies, found by the upper half of the CRC-32
  of the name. What it promises: at most one live entry per CRC, each pointing at a live record.
*/
module NameCache {
  import opened Bytes
  import opened NorFlash
  import opened KvLayout
  import opened KvImage
  import opened KvView
  import opened KvModel
  import opened KvRoom
  import Crc32

  const CACHE_SIZE: nat := 64
  const MAX_ACTIVE: nat := 0xFFFF

  /** `struct kv_cache_node`; no address stands for FDB_DATA_UNUSED. */
  datatype Node = Node(crc: bv16, active: nat, addr: Option<Addr>)

  function UpperHalf(c: bv32): bv16 {
    ((c >> 16) & 0xFFFF) as bv16
  }

  function NameCrc(name: seq<byte>): bv16 {
    UpperHalf(Crc32.Crc(name))
  }

  method CalcNameCrc(name: seq<byte>) returns (c: bv16)
    ensures c == NameCrc(name)
  {
    hide Crc32.Continue, UpperHalf;
    var w := Crc32.CalcCrc32(0, name);
    c := UpperHalf(w);
  }

  /** A live record with a name of this CRC starts at `a`. */
  ghost predicate PointsAt(secs: View, a: Addr, crc: bv16) {
    exists j :: PointsAtRec(secs, a, crc, j)
  }

  ghost predicate PointsAtRec(secs: View, a: Addr, crc: bv16, j: nat) {
    var r := RecAt(secs, Pos(a.sec, j));
    IsRec(secs, a.sec, j) && r.Complete() && r.status == Write && r.off == a.off && NameCrc(r.key) == crc
  }

  /** Nothing before a live entry has its CRC, so it is the only live one. */
  ghost predicate FirstOfCrc(t: seq<Node>) {
    |t| == CACHE_SIZE && forall i, j :: 0 <= i < j < |t| && t[j].addr.Some? ==> t[i].crc != t[j].crc
  }

  /** Every live entry is right, except perhaps that of one CRC. */
  ghost predicate RightExcept(t: seq<Node>, secs: View, crc: bv16) {
    FirstOfCrc(t) &&
    forall i :: 0 <= i < |t| && t[i].addr.Some? && t[i].crc != crc ==> PointsAt(secs, t[i].addr.value, t[i].crc)
  }

  ghost predicate AllRight(t: seq<Node>, secs: View) {
    FirstOfCrc(t) && forall i :: 0 <= i < |t| && t[i].addr.Some? ==> PointsAt(secs, t[i].addr.value, t[i].crc)
  }

  ghost predicate SameSlot(a: Node, b: Node) {
    a.crc == b.crc && a.addr == b.addr
  }

  ghost predicate HasCrc(t: seq<Node>, crc: bv16, k: nat) {
    exists i :: 0 <= i < k && i < |t| && t[i].crc == crc
  }

  // ----- updating the table -----

  /** The first of the first `k` slots with this CRC, or CACHE_SIZE. */
  ghost function CrcSlot(t: seq<Node>, crc: bv16, k: nat): (m: nat)
    requires k <= |t| == CACHE_SIZE
    ensures m < k ==> t[m].crc == crc && forall i :: 0 <= i < m ==> t[i].crc != crc
    ensures m >= k ==> m == CACHE_SIZE && forall i :: 0 <= i < k ==> t[i].crc != crc
  {
    if k == 0 then CACHE_SIZE
    else var m := CrcSlot(t, crc, k - 1); if m < k - 1 then m else if t[k - 1].crc == crc then k - 1 else CACHE_SIZE
  }

  /** The first of the first `k` slots without an address, or CACHE_SIZE. */
  ghost function FreeSlot(t: seq<Node>, k: nat): (m: nat)
    requires k <= |t| == CACHE_SIZE
    ensures m < k ==> t[m].addr.None? && forall i :: 0 <= i < m ==> t[i].addr.Some?
    ensures m >= k ==> m == CACHE_SIZE && forall i :: 0 <= i < k ==> t[i].addr.Some?
  {
    if k == 0 then CACHE_SIZE
    else var m := FreeSlot(t, k - 1); if m < k - 1 then m else if t[k - 1].addr.None? then k - 1 else CACHE_SIZE
  }

  /** The first of the least active slots in use among the first `k`, or CACHE_SIZE if all are at the limit. */
  ghost function LeastSlot(t: seq<Node>, k: nat): (m: nat)
    requires k <= |t| == CACHE_SIZE
    ensures m < k ==> t[m].addr.Some? && t[m].active < MAX_ACTIVE
    ensures m < k ==>
              forall i ::
                0 <= i < k && t[i].addr.Some? ==> t[m].active <= t[i].active && (i < m ==> t[m].active < t[i].active)
    ensures m >= k ==> m == CACHE_SIZE && forall i :: 0 <= i < k && t[i].addr.Some? ==> t[i].active >= MAX_ACTIVE
  {
    if k == 0 then CACHE_SIZE
    else
      var m := LeastSlot(t, k - 1);
      if t[k - 1].addr.Some? && t[k - 1].active < (if m < k - 1 then t[m].active else MAX_ACTIVE) then k - 1 else m
  }

  /** An entry that was passed over is a little less active. */
  function Aged(n: Node): Node {
    if n.addr.Some? && n.active > 0 then n.(active := n.active - 1) else n
  }

  /** The first `k` slots aged. */
  function AgedUpTo(t: seq<Node>, k: nat): (a: seq<Node>)
    ensures |a| == |t| && forall i :: 0 <= i < |t| ==> a[i] == if i < k then Aged(t[i]) else t[i]
  {
    seq(|t|, i requires 0 <= i < |t| => if i < k then Aged(t[i]) else t[i])
  }

  /** The slot a new entry takes: the first free one, else the least active one, if any. */
  ghost function NewSlot(t: seq<Node>): (m: nat)
    requires |t| == CACHE_SIZE
  {
    if FreeSlot(t, CACHE_SIZE) < CACHE_SIZE then FreeSlot(t, CACHE_SIZE)
    else LeastSlot(AgedUpTo(t, CACHE_SIZE), CACHE_SIZE)
  }

  /** The table after an update of the entry for this CRC. */
  ghost function AfterUpdate(t: seq<Node>, crc: bv16, addr: Option<Addr>): (u: seq<Node>)
    requires |t| == CACHE_SIZE
    ensures |u| == CACHE_SIZE
  {
    var m := CrcSlot(t, crc, CACHE_SIZE);
    if m < CACHE_SIZE then
      if addr.Some? then AgedUpTo(t, m)[m := t[m].(addr := addr)] else t[m := t[m].(addr := None, active := 0)]
    else if addr.None? then t
    else
      var n := NewSlot(t);
      if n < CACHE_SIZE then AgedUpTo(t, CACHE_SIZE)[n := Node(crc, CACHE_SIZE, addr)] else AgedUpTo(t, CACHE_SIZE)
  }

  // ----- the same slot by slot -----

  /** No entry of the table is for this CRC. */
  ghost predicate Unknown(t: seq<Node>, crc: bv16) {
    forall i :: 0 <= i < |t| ==> t[i].crc != crc
  }

  /** The first entry for it. */
  ghost predicate KnownAt(t: seq<Node>, crc: bv16, i: nat) {
    i < |t| && t[i].crc == crc && forall j :: 0 <= j < i ==> t[j].crc != crc
  }

  /** One less, but no less than zero, for an entry in use. */
  function Older(n: Node): Node {
    if n.addr.Some? && n.active >= 1 then Node(n.crc, n.active - 1, n.addr) else n
  }

  /** The first free slot, or if there is none the first of those that are least active once all are older. */
  ghost predicate GivenUp(t: seq<Node>, m: nat) {
    m < |t| &&
    if exists i :: 0 <= i < |t| && t[i].addr.None? then t[m].addr.None? && forall i :: 0 <= i < m ==> t[i].addr.Some?
    else forall i :: 0 <= i < |t| ==>
           Older(t[m]).active <= Older(t[i]).active && (i < m ==> Older(t[m]).active < Older(t[i]).active)
  }

  /** A known entry takes the address, those before it are older. */
  lemma UpdateKnown(t: seq<Node>, crc: bv16, a: Addr, i: nat)
    requires |t| == 64 && KnownAt(t, crc, i)
    ensures AfterUpdate(t, crc, Some(a))
         == seq(64, j requires 0 <= j < 64 =>
                  if j < i then Older(t[j]) else if j == i then Node(crc, t[i].active, Some(a)) else t[j])
  {
    assert CrcSlot(t, crc, CACHE_SIZE) == i;
  }

  /** A deleted name leaves its entry empty, an unknown one nothing. */
  lemma UpdateDeleted(t: seq<Node>, crc: bv16)
    requires |t| == 64
    ensures Unknown(t, crc) ==> AfterUpdate(t, crc, None) == t
    ensures forall i: nat :: KnownAt(t, crc, i) ==> AfterUpdate(t, crc, None) == t[i := Node(crc, 0, None)]
  {
    var m := CrcSlot(t, crc, CACHE_SIZE);
    forall i: nat | KnownAt(t, crc, i) ensures AfterUpdate(t, crc, None) == t[i := Node(crc, 0, None)] {
      assert m == i;
    }
  }

  /** A new one takes the slot that is given up, all others are older. */
  lemma UpdateUnknown(t: seq<Node>, crc: bv16, a: Addr)
    requires |t| == 64 && Unknown(t, crc) && forall i :: 0 <= i < 64 ==> t[i].active <= 0xFFFF
    ensures exists m ::
              GivenUp(t, m) &&
              AfterUpdate(t, crc, Some(a)) == seq(64, j requires 0 <= j < 64 =>
                                                        if j == m then Node(crc, 64, Some(a)) else Older(t[j]))
  {
    hide CrcSlot, FreeSlot, LeastSlot;
    assert CrcSlot(t, crc, CACHE_SIZE) == CACHE_SIZE;
    var aged := AgedUpTo(t, CACHE_SIZE);
    var m := NewSlot(t);
    assert forall j :: 0 <= j < 64 ==> aged[j] == Older(t[j]);
    if FreeSlot(t, CACHE_SIZE) == CACHE_SIZE {
      assert aged[0].addr.Some? && aged[0].active < MAX_ACTIVE;
    }
    assert GivenUp(t, m);
    assert AfterUpdate(t, crc, Some(a))[m] == Node(crc, 64, Some(a));
    assert forall j :: 0 <= j < 64 && j != m ==> AfterUpdate(t, crc, Some(a))[j] == Older(t[j]);
  }

  /** One slot further. */
  lemma SlotSteps(t: seq<Node>, crc: bv16, i: nat)
    requires i < |t| == CACHE_SIZE && CrcSlot(t, crc, i) == CACHE_SIZE
    ensures CrcSlot(t, crc, i + 1) == if t[i].crc == crc then i else CACHE_SIZE
    ensures t[i].crc == crc ==> CrcSlot(t, crc, CACHE_SIZE) == i
    ensures FreeSlot(t, i + 1) == if FreeSlot(t, i) < i then FreeSlot(t, i) else if t[i].addr.None? then i
                else CACHE_SIZE
    ensures var a := AgedUpTo(t, CACHE_SIZE); var m := LeastSlot(a, i);
            LeastSlot(a, i + 1) == if a[i].addr.Some? &&
            a[i].active < (if m < i then a[m].active else MAX_ACTIVE) then i else m
    ensures AgedUpTo(t, i + 1) == AgedUpTo(t, i)[i := Aged(t[i])] && AgedUpTo(t, CACHE_SIZE)[i] == Aged(t[i])
    ensures AgedUpTo(t, i)[i] == t[i]
    ensures AgedUpTo(t, 0) == t
  {
    assert AgedUpTo(t, i + 1) == AgedUpTo(t, i)[i := Aged(t[i])];
    assert AgedUpTo(t, 0) == t;
    if t[i].crc == crc {
      FirstCrc(t, crc, i, CACHE_SIZE);
    }
  }

  lemma FirstCrc(t: seq<Node>, crc: bv16, i: nat, k: nat)
    requires i < k <= |t| == CACHE_SIZE && t[i].crc == crc && forall j :: 0 <= j < i ==> t[j].crc != crc
    ensures CrcSlot(t, crc, k) == i
  {
    var m := CrcSlot(t, crc, k);
    assert t[i].crc == crc;
  }

  lemma AfterUpdateIs(t: seq<Node>, crc: bv16, addr: Option<Addr>)
    requires |t| == CACHE_SIZE
    ensures Updated(t, AfterUpdate(t, crc, addr), crc, addr)
  {
    hide FreeSlot, LeastSlot, CrcSlot, AgedUpTo;
    var u := AfterUpdate(t, crc, addr);
    var m := CrcSlot(t, crc, CACHE_SIZE);
    if m < CACHE_SIZE {
      assert Replaced(t, u, m, crc, addr);
    } else if addr.Some? && NewSlot(t) < CACHE_SIZE {
      assert Replaced(t, u, NewSlot(t), crc, addr);
    }
  }

  /**
    What an update leaves: the first entry of this CRC gets the address; without one, a new
    address takes some other slot and an erased address changes nothing.
  */
  ghost predicate Updated(a: seq<Node>, b: seq<Node>, crc: bv16, addr: Option<Addr>) {
    && |a| == |b| == CACHE_SIZE
    && ((exists m :: 0 <= m < |a| && Replaced(a, b, m, crc, addr)) ||
        (!HasCrc(a, crc, |a|) && forall i :: 0 <= i < |a| ==> SameSlot(a[i], b[i])))
  }

  ghost predicate Replaced(a: seq<Node>, b: seq<Node>, m: nat, crc: bv16, addr: Option<Addr>) {
    && |a| == |b| && m < |a| && b[m].crc == crc && b[m].addr == addr
    && (forall i :: 0 <= i < |a| && i != m ==> SameSlot(a[i], b[i]))
    && !HasCrc(a, crc, m) && (a[m].crc == crc || (addr.Some? && !HasCrc(a, crc, |a|)))
  }

  lemma UpdateRights(a: seq<Node>, b: seq<Node>, secs: View, crc: bv16, addr: Option<Addr>)
    requires RightExcept(a, secs, crc) && Updated(a, b, crc, addr)
    requires addr.Some? ==> PointsAt(secs, addr.value, crc)
    ensures AllRight(b, secs)
  {
    hide PointsAt;
    if m :| 0 <= m < |a| && Replaced(a, b, m, crc, addr) {
      UpdateFirst(a, b, m, crc, addr);
      forall i | 0 <= i < |b| && b[i].addr.Some? ensures PointsAt(secs, b[i].addr.value, b[i].crc) {
        if i != m {
          assert SameSlot(a[i], b[i]);
          NotSameCrc(a, b, m, crc, addr, i);
        }
      }
    } else {
      forall i | 0 <= i < |b| ensures SameSlot(a[i], b[i]) {}
    }
  }

  lemma UpdateFirst(a: seq<Node>, b: seq<Node>, m: nat, crc: bv16, addr: Option<Addr>)
    requires FirstOfCrc(a) && Replaced(a, b, m, crc, addr)
    ensures FirstOfCrc(b)
  {
    forall i, j | 0 <= i < j < |b| && b[j].addr.Some? ensures b[i].crc != b[j].crc {
      assert i != m ==> SameSlot(a[i], b[i]);
      assert j != m ==> SameSlot(a[j], b[j]);
      if i == m {
        NotSameCrc(a, b, m, crc, addr, j);
      }
    }
  }

  lemma NotSameCrc(a: seq<Node>, b: seq<Node>, m: nat, crc: bv16, addr: Option<Addr>, j: nat)
    requires FirstOfCrc(a) && Replaced(a, b, m, crc, addr) && j < |a| && j != m && a[j].addr.Some?
    ensures a[j].crc != crc
  {
  }

  // ----- what a change of the flash does to the table -----

  lemma NoEntriesRight(t: seq<Node>, secs: View)
    requires |t| == CACHE_SIZE && forall i :: 0 <= i < |t| ==> t[i].addr.None?
    ensures AllRight(t, secs)
  {
  }

  lemma AllRightIsExcept(t: seq<Node>, secs: View, crc: bv16)
    requires AllRight(t, secs)
    ensures RightExcept(t, secs, crc)
  {
  }

  lemma RestatedPoints(a: View, p: Pos, st: KvStatus, key: Key, addr: Addr, crc: bv16)
    requires At(a, p, Write, key) || At(a, p, PreDelete, key)
    requires PointsAt(a, addr, crc) && crc != NameCrc(key)
    ensures PointsAt(Restated(a, p, st), addr, crc)
  {
    hide NameCrc;
    var j :| PointsAtRec(a, addr, crc, j);
    assert PointsAtRec(Restated(a, p, st), addr, crc, j);
  }

  lemma RestatedRight(t: seq<Node>, a: View, p: Pos, st: KvStatus, key: Key)
    requires RightExcept(t, a, NameCrc(key)) && (At(a, p, Write, key) || At(a, p, PreDelete, key))
    ensures RightExcept(t, Restated(a, p, st), NameCrc(key))
  {
    hide NameCrc, PointsAt;
    forall i | 0 <= i < |t| && t[i].addr.Some? && t[i].crc != NameCrc(key)
      ensures PointsAt(Restated(a, p, st), t[i].addr.value, t[i].crc)
    {
      RestatedPoints(a, p, st, key, t[i].addr.value, t[i].crc);
    }
  }

  /** Live records stay where they are, with their keys. */
  ghost predicate LiveStay(a: View, b: View) {
    forall sec: nat, j: nat :: IsRec(a, sec, j) && a[sec].recs[j].Complete() && a[sec].recs[j].status == Write ==>
      IsRec(b, sec, j) && b[sec].recs[j] == a[sec].recs[j]
  }

  lemma StayRight(t: seq<Node>, a: View, b: View, crc: bv16)
    requires LiveStay(a, b)
    ensures RightExcept(t, a, crc) ==> RightExcept(t, b, crc)
    ensures AllRight(t, a) ==> AllRight(t, b)
  {
    hide NameCrc;
    forall addr, c | PointsAt(a, addr, c) ensures PointsAt(b, addr, c) {
      var j :| PointsAtRec(a, addr, c, j);
      assert PointsAtRec(b, addr, c, j);
    }
  }

  lemma RightSize(t: seq<Node>, secs: View, crc: bv16)
    requires RightExcept(t, secs, crc)
    ensures |t| == CACHE_SIZE
  {
  }

  /** The table around `del_kv`: only the entry of the deleted name can go stale, and only if its record was live. */
  lemma DeletedTable(t: seq<Node>, secs: View, p: Pos, prior: KvStatus, st: KvStatus, key: Key)
    requires RightExcept(t, secs, NameCrc(key)) && At(secs, p, prior, key) && prior in {Write, PreDelete}
    ensures IsRec(secs, p.sec, p.idx)
    ensures var b := DeletedView(secs, p.sec, p.idx, st);
            RightExcept(t, b, NameCrc(key)) && (prior == PreDelete && AllRight(t, secs) ==> AllRight(t, b))
  {
    hide NameCrc, PointsAt, RightExcept, AllRight;
    var a, b := Restated(secs, p, st), DeletedView(secs, p.sec, p.idx, st);
    RestatedRight(t, secs, p, st, key);
    assert LiveStay(a, b);
    StayRight(t, a, b, NameCrc(key));
    if prior == PreDelete {
      assert LiveStay(secs, b);
      StayRight(t, secs, b, NameCrc(key));
    }
  }

  /** A record added to a sector: the old entries stay right, and the new address can be entered. */
  lemma AppendedTable(t: seq<Node>, v: View, sec: nat, key: Key, value: Value)
    requires sec < |v|
    ensures var b := v[sec := Appended(v[sec], key, value)];
            && (RightExcept(t, v, NameCrc(key)) ==> RightExcept(t, b, NameCrc(key)))
            && PointsAt(b, Addr(sec, v[sec].End()), NameCrc(key))
  {
    hide NameCrc, PointsAt;
    var b := v[sec := Appended(v[sec], key, value)];
    assert LiveStay(v, b);
    StayRight(t, v, b, NameCrc(key));
    AppendedPoints(v, sec, key, value);
  }

  lemma AppendedPoints(v: View, sec: nat, key: Key, value: Value)
    requires sec < |v|
    ensures PointsAt(v[sec := Appended(v[sec], key, value)], Addr(sec, v[sec].End()), NameCrc(key))
  {
    hide NameCrc;
    var b := v[sec := Appended(v[sec], key, value)];
    assert b[sec].recs[|v[sec].recs|] == Rec(v[sec].End(), Write, key, value, Size(key, value));
    assert PointsAtRec(b, Addr(sec, v[sec].End()), NameCrc(key), |v[sec].recs|);
  }

  lemma MarkedTable(t: seq<Node>, a: View, b: View, crc: bv16)
    requires MarkedFrom(a, b)
    ensures (RightExcept(t, a, crc) ==> RightExcept(t, b, crc)) && (AllRight(t, a) ==> AllRight(t, b))
  {
    hide NameCrc, PointsAt, RightExcept, AllRight;
    assert LiveStay(a, b);
    StayRight(t, a, b, crc);
  }

  /** Neither a new header nor erasing a sector without live records disturbs the table. */
  lemma CollectedTable(t: seq<Node>, a: View, g: nat, s: Sector)
    requires AllRight(t, a) && g < |a|
    requires s.recs == a[g].recs || forall i :: 0 <= i < |a[g].recs| ==> a[g].recs[i].status != Write
    ensures AllRight(t, a[g := s])
  {
    hide NameCrc, PointsAt, AllRight;
    assert LiveStay(a, a[g := s]);
    StayRight(t, a, a[g := s], 0);
  }

  lemma ErrorTable(t: seq<Node>, a: View, sec: nat, j: nat)
    requires AllRight(t, a) && IsRec(a, sec, j) && a[sec].recs[j].status == PreWrite
    ensures AllRight(t, a[sec := SetRecStatus(a[sec], j, ErrHdr)])
  {
    hide NameCrc, PointsAt, AllRight;
    var b := a[sec := SetRecStatus(a[sec], j, ErrHdr)];
    assert LiveStay(a, b);
    StayRight(t, a, b, 0);
  }

  // ----- the name test on a cached address -----

  /** The code compares as many bytes as the wanted name has with what is stored behind the header. */
  ghost predicate Hit(mem: Memory, a: Addr, name: seq<byte>) {
    a.sec < |mem| && a.off + KV_HDR + |name| <= |mem[a.sec]| &&
    mem[a.sec][a.off + KV_HDR..a.off + KV_HDR + |name|] == name
  }

  /**
    A stored pair the test can take for `name`: another key of the same CRC whose bytes, value
    included, start with the wanted name (or end inside it, or the name outgrows the buffer).
  */
  ghost predicate Clash(key: Key, value: Value, name: seq<byte>) {
    key != name && NameCrc(key) == NameCrc(name) && (|name| > NAME_MAX || name <= key + value || key + value < name)
  }

  /** No stored pair can be taken for this name; implied by CRCs that differ on the keys in use. */
  ghost predicate NoClash(secs: View, name: seq<byte>) {
    forall k :: Stored(secs, k).Some? ==> !Clash(k, Stored(secs, k).value, name)
  }

  lemma NoClashSame(a: View, b: View, name: seq<byte>)
    requires NoClash(a, name) && forall k :: Stored(b, k) == Stored(a, k)
    ensures NoClash(b, name)
  {
    hide Clash, Stored;
  }

  lemma DistinctCrcsDontClash(secs: View, name: seq<byte>)
    requires forall k :: Stored(secs, k).Some? && k != name ==> NameCrc(k) != NameCrc(name)
    ensures NoClash(secs, name)
  {
  }

  /** On a live record the test decides by the bytes of key and value. */
  lemma HitReads(mem: Memory, secs: View, size: nat, a: Addr, j: nat, name: seq<byte>)
    requires Faithful(mem, secs, size) && IsRec(secs, a.sec, j) && secs[a.sec].recs[j].Complete()
    requires secs[a.sec].recs[j].off == a.off
    ensures var r := secs[a.sec].recs[j];
            && (|name| <= |r.key + r.value| ==> (Hit(mem, a, name) <==> name <= r.key + r.value))
            && (Hit(mem, a, name) && |name| > |r.key + r.value| ==> r.key + r.value < name)
  {
    hide SectorBytes, RecShape, Image, Shaped;
    var r := secs[a.sec].recs[j];
    RecInPlace(mem, secs, size, a.sec, j);
    BodyReads(mem[a.sec], r);
    var b, o := mem[a.sec], a.off + KV_HDR;
    var kv := r.key + r.value;
    assert b[o..o + |kv|] == kv by {
      assert b[o..o + |kv|] == b[o..o + |r.key|] + b[o + |r.key|..r.End()];
    }
    if |name| <= |kv| {
      SubSlice(b, o, |kv|, 0, |name|);
    } else if Hit(mem, a, name) {
      SubSlice(b, o, |name|, 0, |kv|);
    }
  }

  /** The table answers a search for `name` with the address `a`. */
  ghost predicate Answers(t: seq<Node>, mem: Memory, name: seq<byte>, a: Addr) {
    exists i :: 0 <= i < |t| && t[i].addr == Some(a) && t[i].crc == NameCrc(name) && Hit(mem, a, name)
  }

  /** Slot `i` is the first one that answers. */
  ghost predicate AnswersFirst(t: seq<Node>, mem: Memory, name: seq<byte>, i: nat) {
    && i < |t| && t[i].addr.Some? && t[i].crc == NameCrc(name) && Hit(mem, t[i].addr.value, name)
    && forall j :: 0 <= j < i && t[j].addr.Some? && t[j].crc == NameCrc(name) ==> !Hit(mem, t[j].addr.value, name)
  }

  /** An entry that was used is more active, up to the limit. */
  function Used(n: Node): Node {
    n.(active := if n.active >= MAX_ACTIVE - CACHE_SIZE then MAX_ACTIVE else n.active + CACHE_SIZE)
  }

  /** The first entry that answers was used, the others stay. */
  ghost predicate FirstUsed(t: seq<Node>, u: seq<Node>, mem: Memory, name: seq<byte>) {
    exists i: nat :: AnswersFirst(t, mem, name, i) && u == t[i := Used(t[i])]
  }

  /** The record of the name starts at `a`. */
  ghost predicate LiesAt(secs: View, a: Addr, name: seq<byte>) {
    exists j: nat :: At(secs, Pos(a.sec, j), Write, name) && secs[a.sec].recs[j].off == a.off
  }

  /** The table answers with the record of another name: a search goes wrong in exactly this case. */
  ghost predicate Misled(t: seq<Node>, mem: Memory, secs: View, name: seq<byte>) {
    exists a :: Answers(t, mem, name, a) && !LiesAt(secs, a, name)
  }

  lemma NotMisled(t: seq<Node>, mem: Memory, secs: View, size: nat, name: seq<byte>)
    requires Faithful(mem, secs, size) && Unique(secs, Write) && NoClash(secs, name) && AllRight(t, secs)
    requires |name| <= NAME_MAX || forall i :: 0 <= i < |t| && t[i].addr.Some? ==> t[i].crc != NameCrc(name)
    ensures !Misled(t, mem, secs, name)
  {
    hide NameCrc, Faithful, NoClash, Hit;
    forall a | Answers(t, mem, name, a) ensures LiesAt(secs, a, name) {
      assert PointsAt(secs, a, NameCrc(name));
      var j :| PointsAtRec(secs, a, NameCrc(name), j);
      HitIsRight(mem, secs, size, a, name, j);
      assert At(secs, Pos(a.sec, j), Write, name);
    }
  }

  /** Without a clash the test accepts exactly the record of the name. */
  lemma HitIsRight(mem: Memory, secs: View, size: nat, a: Addr, name: seq<byte>, j: nat)
    requires Faithful(mem, secs, size) && Unique(secs, Write) && NoClash(secs, name) && |name| <= NAME_MAX
    requires PointsAtRec(secs, a, NameCrc(name), j)
    ensures Hit(mem, a, name) <==> At(secs, Pos(a.sec, j), Write, name)
  {
    hide NameCrc, BytesOf, Shaped;
    var r := RecAt(secs, Pos(a.sec, j));
    HitReads(mem, secs, size, a, j, name);
    LookupIs(secs, Write, r.key, Pos(a.sec, j));
    assert Stored(secs, r.key) == Some(r.value);
    assert r.key != name ==> !Clash(r.key, r.value, name);
  }

  /** A name that outgrows the buffer is never compared. */
  lemma LongNameNotCached(t: seq<Node>, secs: View, name: seq<byte>)
    requires AllRight(t, secs) && Unique(secs, Write) && NoClash(secs, name) && |name| > NAME_MAX
    requires forall p, k :: At(secs, p, Write, k) ==> |k| < NAME_MAX
    ensures forall i :: 0 <= i < |t| && t[i].addr.Some? ==> t[i].crc != NameCrc(name)
  {
    hide NameCrc;
    forall i | 0 <= i < |t| && t[i].addr.Some? ensures t[i].crc != NameCrc(name) {
      var j :| PointsAtRec(secs, t[i].addr.value, t[i].crc, j);
      var p := Pos(t[i].addr.value.sec, j);
      LookupIs(secs, Write, RecAt(secs, p).key, p);
      assert Stored(secs, RecAt(secs, p).key).Some?;
    }
  }

  // ----- two names that clash -----

  const NAME_E: seq<byte> := [101]
  const NAME_EO: seq<byte> := [101, 124, 111]

  lemma FirstFeed()
    ensures Crc32.Feed(0xFFFFFFFF, 101) == 0x102585A5
  {
  }

  lemma SecondFeed()
    ensures Crc32.Feed(0x102585A5, 124) == 0xFF1F4FF5
  {
  }

  lemma ThirdFeed()
    ensures Crc32.Feed(0xFF1F4FF5, 111) == 0x10256515
  {
  }

  lemma UpperHalves()
    ensures UpperHalf(Crc32.Flip(0x102585A5)) == 0xEFDA && UpperHalf(Crc32.Flip(0x10256515)) == 0xEFDA
    ensures Crc32.Flip(0) == 0xFFFFFFFF
  {
  }

  lemma ClashingNames()
    ensures NameCrc(NAME_E) == NameCrc(NAME_EO) == 0xEFDA && NAME_E < NAME_EO
  {
    hide Crc32.Feed, UpperHalf, Crc32.Flip;
    FirstFeed();
    SecondFeed();
    ThirdFeed();
    UpperHalves();
    Crc32.FoldNext(Crc32.Feed, 0xFFFFFFFF, NAME_EO, 0);
    Crc32.FoldNext(Crc32.Feed, 0xFFFFFFFF, NAME_EO, 1);
    Crc32.FoldNext(Crc32.Feed, 0xFFFFFFFF, NAME_EO, 2);
    assert NAME_EO[..3] == NAME_EO && NAME_EO[..1] == NAME_E && NAME_EO[..0] == [];
  }

  const EO_RECORD: Rec := Rec(SECTOR_HDR, Write, NAME_EO, [1], 28)

  /** A store that holds nothing but a value for `e|o`. */
  function OnlyEo(): View {
    [Sector(Using, Clean, [EO_RECORD]), EMPTY_SECTOR]
  }

  function OnlyEoTable(): seq<Node> {
    [Node(NameCrc(NAME_EO), CACHE_SIZE, Some(Addr(0, SECTOR_HDR)))] + seq(CACHE_SIZE - 1, _ => Node(0, 0, None))
  }

  lemma OnlyEoBytes(size: nat)
    requires size > 200
    ensures RecShape(EO_RECORD) && EO_RECORD.off == SECTOR_HDR && EO_RECORD.End() == 44
    ensures Faithful([OneBytes(Clean, EO_RECORD, size), EmptyBytes(size)], OnlyEo(), size)
  {
    hide SectorBytes, OneBytes, EmptyBytes;
    assert RecShape(EO_RECORD) && EO_RECORD.End() == 44;
    var m, v := [OneBytes(Clean, EO_RECORD, size), EmptyBytes(size)], OnlyEo();
    OneHolds(Clean, EO_RECORD, size);
    EmptyHolds(size);
    OneShape(Clean, EO_RECORD, size);
    forall i | 0 <= i < 2 ensures SectorBytes(m[i], v[i]) && SectorShape(v[i], size) {}
  }

  /** On these contents, with its address in the table, a search for `e` is answered with the record of `e|o`. */
  lemma ClashIsTaken(size: nat)
    requires size > 200
    ensures RecShape(EO_RECORD) && EO_RECORD.End() == 44
    ensures var mem := [OneBytes(Clean, EO_RECORD, size), EmptyBytes(size)];
            && Faithful(mem, OnlyEo(), size) && AllRight(OnlyEoTable(), OnlyEo()) && Stored(OnlyEo(), NAME_E) == None
            && Answers(OnlyEoTable(), mem, NAME_E, Addr(0, SECTOR_HDR)) && Misled(OnlyEoTable(), mem, OnlyEo(), NAME_E)
  {
    hide OneBytes, EmptyBytes, Faithful, Answers, AllRight, Misled;
    OnlyEoBytes(size);
    HitTaken([OneBytes(Clean, EO_RECORD, size), EmptyBytes(size)], size);
  }

  lemma HitTaken(mem: Memory, size: nat)
    requires Faithful(mem, OnlyEo(), size)
    ensures AllRight(OnlyEoTable(), OnlyEo()) && Stored(OnlyEo(), NAME_E) == None
    ensures Answers(OnlyEoTable(), mem, NAME_E, Addr(0, SECTOR_HDR)) && Misled(OnlyEoTable(), mem, OnlyEo(), NAME_E)
  {
    hide NameCrc, Faithful, Hit;
    ClashingNames();
    var secs, t, a := OnlyEo(), OnlyEoTable(), Addr(0, SECTOR_HDR);
    assert PointsAtRec(secs, a, NameCrc(NAME_EO), 0);
    HitReads(mem, secs, size, a, 0, NAME_E);
    assert NAME_E <= NAME_EO + [1];
    forall p ensures !At(secs, p, Write, NAME_E) {
      OnlyOne(p);
    }
    LookupNone(secs, Write, NAME_E);
    assert t[0].addr == Some(a) && t[0].crc == NameCrc(NAME_E) && Hit(mem, a, NAME_E);
    assert Answers(t, mem, NAME_E, a) && !LiesAt(secs, a, NAME_E);
  }

  lemma OnlyOne(p: Pos)
    ensures !At(OnlyEo(), p, Write, NAME_E)
  {
    if IsRec(OnlyEo(), p.sec, p.idx) {
      assert RecAt(OnlyEo(), p).key == NAME_EO;
    }
  }
}
