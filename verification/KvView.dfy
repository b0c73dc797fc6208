/**
  The view of the whole flash that the store reasons with, the sector cache, and what every change
  keeps. `Faithful` ties a view to flash contents; the other predicates are properties of views.
*/
module KvView {
  import opened Bytes
  import opened Status
  import opened NorFlash
  import opened KvLayout
  import opened KvImage
  import opened KvWalk
  import Crc32

  datatype Option<+T> = None | Some(value: T)

  const SECTOR_CACHE_SIZE: nat := 8

  /** `struct kvdb_sec_info`; `combined` is always "not combined" and left out. None is FAILED_ADDR. */
  datatype SecInfo = SecInfo(checkOk: bool, store: Store, dirt: Dirt, sec: nat, remain: nat, emptyKv: Option<nat>)

  /** `struct fdb_kv` */
  datatype KvInfo = KvInfo(status: KvStatus, crcOk: bool, len: nat, name: seq<byte>, valueLen: nat, start: Addr,
                           valueOff: nat)

  type View = seq<Sector>

  ghost predicate Shaped(secs: View, size: nat) {
    forall i :: 0 <= i < |secs| ==> SectorShape(secs[i], size)
  }

  ghost predicate BytesOf(mem: Memory, secs: View) {
    |mem| == |secs| &&
    forall i {:trigger SectorBytes(mem[i], secs[i])} :: 0 <= i < |secs| ==> SectorBytes(mem[i], secs[i])
  }

  /** The flash contents `mem` spell out the view `secs`. */
  ghost predicate Faithful(mem: Memory, secs: View, size: nat) {
    BytesOf(mem, secs) && Shaped(secs, size) && Sized(mem, size)
  }

  ghost predicate IsRec(secs: View, sec: nat, i: nat) {
    sec < |secs| && i < |secs[sec].recs|
  }

  /** The part of a record's description that finding the next record uses. */
  ghost predicate Locates(kv: KvInfo, sec: nat, r: Rec)
    requires RecShape(r)
  {
    kv.start == Addr(sec, r.off) && kv.len == r.Stated() && kv.crcOk == CrcGood(r)
  }

  /** What `ReadKv` reports about a record. */
  ghost predicate Reports(kv: KvInfo, sec: nat, r: Rec)
    requires RecShape(r)
  {
    && Locates(kv, sec, r) && kv.status == r.status
    && (r.Complete() ==> kv.name == r.key && kv.valueLen == |r.value| && kv.valueOff == r.off + KV_HDR + |r.key|)
  }

  /** A header-less record is marked with the error status by whoever reads it first. */
  function Marked(r: Rec): Rec {
    if r.written == 4 then WithStatus(r, ErrHdr) else r
  }

  ghost function MarkRec(secs: View, sec: nat, i: nat): View
    requires IsRec(secs, sec, i)
  {
    secs[sec := secs[sec].(recs := secs[sec].recs[i := Marked(secs[sec].recs[i])])]
  }

  ghost predicate Settled(secs: View) {
    forall i :: 0 <= i < |secs| ==> SectorSettled(secs[i])
  }

  // ----- the free space of a sector, as the traversal computes it -----

  /** Bytes the headers of the visible records among the first `n` state. */
  ghost function VisibleLen(recs: seq<Rec>, n: nat): nat
    requires n <= |recs|
  {
    if n == 0 then 0 else VisibleLen(recs, n - 1) + (if Visible(recs[n - 1]) then recs[n - 1].Stated() else 0)
  }

  ghost function EndOf(recs: seq<Rec>, n: nat): nat
    requires n <= |recs|
  {
    if n == 0 then SECTOR_HDR else recs[n - 1].End()
  }

  /** By how much adding up the stated lengths falls short of the end: the bytes no visible record accounts for. */
  ghost function Lag(s: Sector): nat {
    var sum := SECTOR_HDR + VisibleLen(s.recs, |s.recs|);
    if sum < s.End() then s.End() - sum else 0
  }

  /** No byte left over from a power cut. */
  ghost predicate Even(s: Sector) {
    Lag(s) == 0
  }

  /** It never leads past the end of a record. */
  ghost predicate NeverAhead(recs: seq<Rec>) {
    forall n {:trigger EndOf(recs, n)} :: 0 <= n <= |recs| ==> SECTOR_HDR + VisibleLen(recs, n) <= EndOf(recs, n)
  }

  ghost predicate Firm(r: Rec)
    requires RecShape(r)
  {
    Image(r)[r.Len() - 1] != ERASED
  }

  ghost predicate LastFirm(s: Sector) {
    s.recs != [] && RecShape(s.recs[|s.recs| - 1]) && Firm(s.recs[|s.recs| - 1])
  }

  /**
    The condition under which a traversal finds the end of a sector: the stated lengths lead to it,
    or they fall short of it and the last record does not end in an erased byte.
  */
  ghost predicate SectorExact(s: Sector) {
    NeverAhead(s.recs) && (Even(s) || LastFirm(s))
  }

  ghost predicate Exact(secs: View) {
    forall i :: 0 <= i < |secs| ==> SectorExact(secs[i])
  }

  ghost predicate AllEven(secs: View) {
    forall i :: 0 <= i < |secs| ==> Even(secs[i])
  }

  /** No sector has more bytes left over than before. */
  ghost predicate LagKept(a: View, b: View) {
    |a| == |b| && forall i :: 0 <= i < |a| ==> Lag(b[i]) <= Lag(a[i])
  }

  lemma LagKeptSelf(a: View)
    ensures LagKept(a, a)
  {
  }

  lemma LagKeptTrans(a: View, b: View, c: View)
    requires LagKept(a, b) && LagKept(b, c)
    ensures LagKept(a, c)
  {
    hide Lag;
  }

  lemma EvenStays(a: View, b: View)
    requires LagKept(a, b) && AllEven(a)
    ensures AllEven(b)
  {
    hide Lag;
  }

  // ----- the sector cache -----

  /** A sector under collection stays "dirty" in the cache, which excludes it just as well. */
  predicate DirtAgrees(cached: Dirt, onFlash: Dirt) {
    cached == onFlash || (onFlash == Gc && cached == Dirty)
  }

  ghost predicate InfoOk(e: SecInfo, secs: View, size: nat) {
    && e.checkOk && e.sec < |secs| && secs[e.sec].store != StoreUnused
    && e.store == secs[e.sec].store && DirtAgrees(e.dirt, secs[e.sec].dirt)
    && (e.emptyKv.Some? ==>
          e.emptyKv.value == secs[e.sec].End() && e.remain == size - e.emptyKv.value && !JustOpened(secs[e.sec]))
  }

  /** What adding a record needs to know of the chosen sector. */
  ghost predicate SlotOk(e: SecInfo, secs: View, size: nat) {
    && e.sec < |secs| && secs[e.sec].store != StoreUnused && e.store == secs[e.sec].store
    && e.emptyKv.Some? && e.emptyKv.value == secs[e.sec].End() && e.remain == size - e.emptyKv.value
    && !JustOpened(secs[e.sec])
  }

  lemma SettledRec(secs: View, sec: nat, i: nat)
    requires Settled(secs) && IsRec(secs, sec, i)
    ensures RecShape(secs[sec].recs[i]) && NoLuck(secs[sec].recs[i])
  {
    hide NoLuck;
    assert SectorSettled(secs[sec]);
  }

  lemma SettledNoBare(secs: View, sec: nat)
    requires Settled(secs) && sec < |secs|
    ensures NoBare(secs[sec].recs)
  {
    assert SectorSettled(secs[sec]);
  }

  lemma SlotUsable(e: SecInfo, secs: View, size: nat, newLen: nat)
    requires Shaped(secs, size) && SlotOk(e, secs, size) && e.remain > newLen + REMAIN_THRESHOLD && newLen >= KV_HDR
    ensures e.store in {Empty, Using} && SECTOR_HDR + KV_HDR + REMAIN_THRESHOLD < size
    ensures e.store == Empty ==> secs[e.sec].recs == []
    ensures e.emptyKv.value + newLen + REMAIN_THRESHOLD < size
  {
    assert SectorShape(secs[e.sec], size);
    if secs[e.sec].recs != [] {
      ChainedEnds(secs[e.sec].recs, |secs[e.sec].recs| - 1);
    }
  }

  ghost predicate CacheOk(cache: seq<Option<SecInfo>>, secs: View, size: nat) {
    && |cache| == SECTOR_CACHE_SIZE
    && (forall i :: 0 <= i < |cache| && cache[i].Some? ==> InfoOk(cache[i].value, secs, size))
    && (forall i, j ::
          0 <= i < j < |cache| && cache[i].Some? && cache[j].Some? ==> cache[i].value.sec != cache[j].value.sec)
  }

  // ----- what a record reads as -----

  lemma StatusReads(b: seq<byte>, r: Rec)
    requires Holds(b, r)
    ensures Decode(b[r.off..r.off + 1], KV_STATUS_NUM) == r.status.Index()
  {
    hide StatusByte, Image, RecShape, Decode;
    FirstByte(b, r);
    SomeBytes(r);
    EncodeOneByte(KV_STATUS_NUM, r.status.Index());
    assert b[r.off..r.off + 1] == [StatusByte(r.status.Index())];
  }

  lemma BareReads(b: seq<byte>, r: Rec)
    requires Holds(b, r) && r.written == 4
    ensures r.off + KV_HDR <= |b| && FromU32(b[r.off + 8..r.off + 12]) == UNUSED_WORD
  {
    hide StatusByte, Image;
    ImageOfBare(r);
    SubSlice(b, r.off, KV_HDR, 8, 12);
  }

  lemma HeaderReads(b: seq<byte>, r: Rec)
    requires Holds(b, r) && r.written >= KV_HDR
    ensures r.off + KV_HDR <= r.End() <= |b|
    ensures FromU32(b[r.off + 8..r.off + 12]) == r.Stated()
    ensures FromU32(b[r.off + 12..r.off + 16]) == RecCrc(r.key, r.value)
    ensures b[r.off + 16..r.off + 24] == CrcHead(r.key, r.value)
  {
    hide StatusByte, Image, U32, RecCrc, CrcHead;
    ImageFields(r);
    FromU32OfU32(r.Stated());
    FromU32OfU32(RecCrc(r.key, r.value));
    SubSlice(b, r.off, r.Len(), 8, 12);
    SubSlice(b, r.off, r.Len(), 12, 16);
    SubSlice(b, r.off, r.Len(), 16, 24);
  }

  lemma CrcHeadReads(key: seq<byte>, value: seq<byte>)
    requires Storable(key, value)
    ensures CrcHead(key, value)[0] as nat == |key| && FromU32(CrcHead(key, value)[4..8]) == |value|
  {
    hide U32;
    FromU32OfU32(|value|);
    assert CrcHead(key, value)[4..8] == U32(|value|);
  }

  /** The three CRC calls of the reader together cover the record from name_len to its stated end. */
  lemma CrcReads(b: seq<byte>, r: Rec)
    requires Holds(b, r) && r.written >= KV_HDR && r.off + r.Stated() <= |b|
    ensures r.off + KV_HDR <= r.End() <= r.off + r.Stated()
    ensures Crc32.Continue(Crc32.Continue(Crc32.Continue(0, b[r.off + 16..r.off + 20]), b[r.off + 20..r.off + 24]),
                           b[r.off + 24..r.off + r.Stated()])
         == Crc32.Crc(Image(r)[16..] + b[r.End()..r.off + r.Stated()])
  {
    hide StatusByte, Image, Crc32.Continue;
    HeaderReads(b, r);
    var e := r.off + r.Stated();
    var x, y, z := b[r.off + 16..r.off + 20], b[r.off + 20..r.off + 24], b[r.off + 24..e];
    Crc32.ContinueSplit(0, x, y);
    Crc32.ContinueSplit(0, x + y, z);
    assert x + y + z == b[r.off..r.End()][16..] + b[r.End()..e];
  }

  /** What the reader computes passes the check exactly for a good record. */
  lemma CrcDecides(b: seq<byte>, r: Rec)
    requires Holds(b, r) && r.written >= KV_HDR && NoLuck(r) && r.off + r.Stated() <= |b|
    ensures r.End() <= r.off + r.Stated()
    ensures (Crc32.Crc(Image(r)[16..] + b[r.End()..r.off + r.Stated()]) as nat) == RecCrc(r.key, r.value) <==>
              CrcGood(r)
  {
    hide StatusByte, Image, Crc32.Continue, RecCrc;
    var t := b[r.End()..r.off + r.Stated()];
    assert |t| == r.short;
    if r.short == 0 {
      assert Image(r)[16..] + t == Image(r)[16..];
    }
  }

  lemma BodyReads(b: seq<byte>, r: Rec)
    requires Holds(b, r) && r.Complete()
    ensures r.off + KV_HDR + |r.key| + |r.value| == r.End() <= |b|
    ensures b[r.off + KV_HDR..r.off + KV_HDR + |r.key|] == r.key
    ensures b[r.off + KV_HDR + |r.key|..r.End()] == r.value
  {
    hide StatusByte, Image;
    ImageOfComplete(r);
    SubSlice(b, r.off, r.Len(), KV_HDR, KV_HDR + |r.key|);
    SubSlice(b, r.off, r.Len(), KV_HDR + |r.key|, r.Len());
  }

  lemma HoldsStorable(b: seq<byte>, r: Rec)
    requires Holds(b, r)
    ensures Storable(r.key, r.value)
  {
  }

  lemma AtLeastOnce(size: nat, num: nat)
    requires num >= 1
    ensures num * size >= size
  {
  }

  /** Which records have a usable length. */
  lemma LengthReads(b: seq<byte>, r: Rec, size: nat, num: nat)
    requires Holds(b, r) && Visible(r) && r.off + r.Stated() < size < U32_LIMIT && num >= 2
    ensures r.off + KV_HDR <= |b| && RecShape(r)
    ensures var len := FromU32(b[r.off + 8..r.off + 12]);
            && (len == UNUSED_WORD || len > num * size || len < KV_HDR <==> r.written == 4)
            && (r.written != 4 ==> r.written >= KV_HDR && len == r.Stated())
            && (r.written == 4 ==> RecShape(WithStatus(r, ErrHdr)))
  {
    hide Image, FromU32, RecCrc, CrcHead, StatusByte;
    AtLeastOnce(size, num);
    if r.written == 4 {
      BareReads(b, r);
    } else {
      HeaderReads(b, r);
    }
  }

  lemma MarkRecIs(secs: View, sec: nat, i: nat)
    requires IsRec(secs, sec, i)
    ensures var r := secs[sec].recs[i];
            if r.written == 4 && r.status != ErrHdr then
              MarkRec(secs, sec, i) == secs[sec := SetRecStatus(secs[sec], i, ErrHdr)]
            else MarkRec(secs, sec, i) == secs
    ensures MarkRec(secs, sec, i)[sec].recs[i] == Marked(secs[sec].recs[i])
  {
    assert secs[sec].recs[i := secs[sec].recs[i]] == secs[sec].recs;
  }

  lemma ReportsBare(kv: KvInfo, sec: nat, r: Rec)
    requires RecShape(r) && r.written == 4 && r.status == ErrHdr
    requires kv.start == Addr(sec, r.off) && kv.len == KV_HDR && kv.status == ErrHdr && !kv.crcOk
    ensures Reports(kv, sec, r)
  {
  }

  // ----- traversal facts -----

  lemma {:induction false} VisibleLenSkips(recs: seq<Rec>, i: nat, n: nat)
    requires i < n <= |recs| && Visible(recs[i]) && forall k :: i < k < n ==> !Visible(recs[k])
    ensures VisibleLen(recs, n) == VisibleLen(recs, i) + recs[i].Stated()
  {
    if i + 1 < n {
      VisibleLenSkips(recs, i, n - 1);
    }
  }

  ghost predicate SameLayout(a: seq<Rec>, b: seq<Rec>) {
    |a| == |b| && forall k :: 0 <= k < |a| ==>
      a[k].off == b[k].off && a[k].Len() == b[k].Len() && a[k].written == b[k].written && a[k].Stated() == b[k].Stated()
  }

  lemma {:induction false} LayoutSame(a: seq<Rec>, b: seq<Rec>, n: nat)
    requires SameLayout(a, b) && n <= |a|
    ensures VisibleLen(a, n) == VisibleLen(b, n)
  {
    if n > 0 {
      LayoutSame(a, b, n - 1);
    }
  }

  lemma NextVisibleSame(a: seq<Rec>, b: seq<Rec>, i: nat)
    requires SameLayout(a, b) && i < |a|
    ensures NextVisible(a, i) == NextVisible(b, i)
  {
    var j, k := NextVisible(a, i), NextVisible(b, i);
    if j < |a| {
      assert Visible(b[j]);
    }
    if k < |a| {
      assert Visible(a[k]);
    }
  }

  lemma UsingStarts(mem: Memory, secs: View, size: nat, sec: nat)
    requires Faithful(mem, secs, size) && sec < |secs| && secs[sec].store == Using
    ensures secs[sec].recs != [] && secs[sec].recs[0].off == SECTOR_HDR && Visible(secs[sec].recs[0])
    ensures VisibleLen(secs[sec].recs, 0) == 0
  {
  }

  lemma TraverseStep(secs: View, mem: Memory, size: nat, sec: nat, i: nat)
    requires Faithful(mem, secs, size) && Settled(secs) && Exact(secs) && IsRec(secs, sec, i)
    requires Visible(secs[sec].recs[i])
    ensures i > 0 ==> MarkRec(secs, sec, i) == secs
    ensures IsRec(MarkRec(secs, sec, i), sec, i) && MarkRec(secs, sec, i)[sec].store == secs[sec].store
    ensures var a, b := secs[sec].recs, MarkRec(secs, sec, i)[sec].recs; var j := NextVisible(b, i);
            && SameLayout(a, b) && RecShape(b[i]) && (b[i].written == 4 ==> b[i].status == ErrHdr)
            && VisibleLen(b, j) == VisibleLen(a, i) + b[i].Stated()
            && SECTOR_HDR + VisibleLen(b, j) <= size
  {
    hide RecShape, Image, Quiet, SectorBytes, Chained, SameLayout, VisibleLen, NextVisible, MarkRec;
    MarkRecIs(secs, sec, i);
    MarkLayout(secs, sec, i);
    var a, b := secs[sec].recs, MarkRec(secs, sec, i)[sec].recs;
    MarkedShape(a[i]);
    assert SectorExact(secs[sec]) && SectorShape(secs[sec], size);
    VisibleStep(a, b, i, size);
  }

  lemma VisibleStep(a: seq<Rec>, b: seq<Rec>, i: nat, size: nat)
    requires Chained(a) && NeverAhead(a) && SameLayout(a, b) && i < |a| && Visible(a[i]) && a[|a| - 1].End() < size
    ensures var j := NextVisible(b, i);
            VisibleLen(b, j) == VisibleLen(a, i) + b[i].Stated() && SECTOR_HDR + VisibleLen(b, j) <= size
  {
    hide RecShape;
    NextVisibleSame(a, b, i);
    var j := NextVisible(b, i);
    VisibleLenSkips(a, i, j);
    LayoutSame(a, b, j);
    assert SECTOR_HDR + VisibleLen(a, j) <= EndOf(a, j);
    ChainedEnds(a, j - 1);
  }

  lemma MarkedShape(r: Rec)
    requires RecShape(r)
    ensures RecShape(Marked(r))
  {
  }

  lemma MarkLayout(secs: View, sec: nat, i: nat)
    requires IsRec(secs, sec, i)
    ensures IsRec(MarkRec(secs, sec, i), sec, i) && SameLayout(secs[sec].recs, MarkRec(secs, sec, i)[sec].recs)
    ensures MarkRec(secs, sec, i)[sec].store == secs[sec].store
  {
  }

  lemma ReportedPartial(kv: KvInfo, sec: nat, r: Rec)
    requires RecShape(r) && Reports(kv, sec, r) && (r.written == 4 ==> r.status == ErrHdr) && Visible(r)
    ensures !kv.crcOk ==> kv.status == PreWrite || kv.status == ErrHdr
    ensures kv.len == r.Stated() && kv.start == Addr(sec, r.off) && Locates(kv, sec, r)
  {
    if !kv.crcOk {
      CompleteNotBad(r);
    }
  }

  lemma EndNotErased(mem: Memory, secs: View, size: nat, sec: nat)
    requires Faithful(mem, secs, size) && sec < |secs| && secs[sec].store == Using && LastFirm(secs[sec])
    ensures SECTOR_HDR < secs[sec].End() <= |mem[sec]| && mem[sec][secs[sec].End() - 1] != ERASED
  {
    hide Image, RecShape, StatusByte;
    var s := secs[sec];
    var r := s.recs[|s.recs| - 1];
    RecInPlace(mem, secs, size, sec, |s.recs| - 1);
    assert mem[sec][r.off..r.End()][r.Len() - 1] == mem[sec][r.End() - 1];
  }

  /** The erased tail begins where the records end: the traversal computes the true free space. */
  lemma TraversedEnd(mem: Memory, secs: View, size: nat, sec: nat, empty: nat, ff: nat)
    requires Faithful(mem, secs, size) && Exact(secs) && sec < |secs| && secs[sec].store == Using && |mem[sec]| == size
    requires empty == SECTOR_HDR + VisibleLen(secs[sec].recs, |secs[sec].recs|)
    requires empty <= ff <= size && (forall p :: ff <= p < size ==> mem[sec][p] == ERASED)
    requires (ff > empty ==> mem[sec][ff - 1] != ERASED)
    ensures ff == secs[sec].End()
  {
    hide Image, RecShape, VisibleLen, StatusByte, Firm, Holds;
    var s := secs[sec];
    assert SectorBytes(mem[sec], s) && SectorShape(s, size) && SectorExact(s);
    assert empty <= EndOf(s.recs, |s.recs|);
    if !Even(s) {
      EndNotErased(mem, secs, size, sec);
    }
  }

  /** Same places and lengths, and a last byte as firm as before: the end is found as before. */
  lemma ExactSame(s: Sector, t: Sector)
    requires SameLayout(s.recs, t.recs) && (LastFirm(s) ==> LastFirm(t))
    ensures s.End() == t.End() && Lag(s) == Lag(t) && (SectorExact(s) ==> SectorExact(t))
  {
    hide RecShape, Firm, VisibleLen, LastFirm;
    forall n | 0 <= n <= |s.recs| ensures VisibleLen(t.recs, n) == VisibleLen(s.recs, n) &&
        EndOf(t.recs, n) == EndOf(s.recs, n) {
      LayoutSame(s.recs, t.recs, n);
    }
  }

  lemma StatusLag(s: Sector, i: nat, st: KvStatus)
    requires i < |s.recs|
    ensures Lag(SetRecStatus(s, i, st)) == Lag(s) && forall d: Dirt :: Lag(SetRecStatus(s, i, st).(dirt := d)) == Lag(s)
  {
    hide VisibleLen;
    LayoutSame(s.recs, SetRecStatus(s, i, st).recs, |s.recs|);
  }

  lemma MarkedLast(s: Sector, i: nat)
    requires i < |s.recs| && RecShape(s.recs[i])
    ensures var t := s.(recs := s.recs[i := Marked(s.recs[i])]);
            SameLayout(s.recs, t.recs) && (LastFirm(s) ==> LastFirm(t))
    ensures Marked(s.recs[i]) != s.recs[i] ==> Harmless(Marked(s.recs[i]))
  {
    hide Image, StatusByte, RecBytes;
    var r := s.recs[i];
    MarkedShape(r);
    if r.written == 4 {
      ImageAt(r, r.Len() - 1);
    }
  }

  lemma MarkedSector(s: Sector, i: nat)
    requires SectorSettled(s) && i < |s.recs|
    ensures var t := s.(recs := s.recs[i := Marked(s.recs[i])]);
            && SectorSettled(t) && Lag(t) == Lag(s) && (SectorExact(s) ==> SectorExact(t))
            && t.End() == s.End() && (!JustOpened(s) ==> !JustOpened(t))
  {
    hide RecShape, Image, Harmless, Firm, SectorExact, Lag;
    var t := s.(recs := s.recs[i := Marked(s.recs[i])]);
    MarkedShape(s.recs[i]);
    MarkedLast(s, i);
    ExactSame(s, t);
  }

  /** Setting the error mark keeps what holds between operations. */
  lemma MarkKeeps(cache: seq<Option<SecInfo>>, secs: View, size: nat, sec: nat, i: nat)
    requires CacheOk(cache, secs, size) && Settled(secs) && Exact(secs) && IsRec(secs, sec, i)
    ensures var t := MarkRec(secs, sec, i); CacheOk(cache, t, size) && Settled(t) && Exact(t) && LagKept(secs, t)
  {
    hide SectorSettled, Lag, SectorExact, JustOpened;
    MarkedSector(secs[sec], i);
  }

  lemma MarkHeaders(secs: View, sec: nat, i: nat)
    requires IsRec(secs, sec, i)
    ensures var t := MarkRec(secs, sec, i);
            |t| == |secs| && t[sec].store == secs[sec].store && t[sec].dirt == secs[sec].dirt
  {
  }

  /** A sector header reads back as it was written; an erased one fails the magic check. */
  lemma HeaderDecodes(mem: Memory, secs: View, size: nat, sec: nat)
    requires Faithful(mem, secs, size) && sec < |secs|
    ensures var b, s := mem[sec], secs[sec];
            && |b| >= SECTOR_HDR
            && (s.store == StoreUnused ==> !SoundHeader(b))
            && (s.store != StoreUnused ==>
                  && FromU32(b[4..8]) == SECTOR_MAGIC && FromU32(b[8..12]) == UNUSED_WORD
                  && Decode(b[0..1], SECTOR_STATUS_NUM) == s.store.Index()
                  && Decode(b[1..2], SECTOR_STATUS_NUM) == s.dirt.Index())
  {
    hide StatusByte, U32, FromU32, Decode, Holds, SectorHeader, Chained, BareLast;
    var b, s := mem[sec], secs[sec];
    assert SectorBytes(b, s);
    var h := b[..SECTOR_HDR];
    assert s.store == StoreUnused ==> Blank(s) by { assert SectorShape(s, size); }
    SubSlice(b, 0, SECTOR_HDR, 4, 8);
    SubSlice(b, 0, SECTOR_HDR, 8, 12);
    if s.store != StoreUnused {
      HeaderFields(s.store, s.dirt);
      FromU32OfU32(SECTOR_MAGIC);
      OnesWord(b[8..12]);
      EncodeOneByte(SECTOR_STATUS_NUM, s.store.Index());
      EncodeOneByte(SECTOR_STATUS_NUM, s.dirt.Index());
      assert b[0] == h[0] && b[1] == h[1];
      assert b[0..1] == [StatusByte(s.store.Index())] && b[1..2] == [StatusByte(s.dirt.Index())];
    }
  }

  lemma OnesWord(w: seq<byte>)
    requires w == Ones(4)
    ensures FromU32(w) == UNUSED_WORD
  {
  }

  // ----- what the changes keep -----

  /** The view after `del_kv`. */
  ghost function DeletedView(secs: View, sec: nat, i: nat, st: KvStatus): View
    requires IsRec(secs, sec, i)
  {
    var s := SetRecStatus(secs[sec], i, st);
    secs[sec := if s.dirt == Clean then s.(dirt := Dirty) else s]
  }

  lemma FormatKeeps(secs: View, sec: nat)
    requires Settled(secs) && Exact(secs) && sec < |secs|
    ensures var t := secs[sec := EMPTY_SECTOR]; Settled(t) && Exact(t) && LagKept(secs, t)
  {
    hide SectorExact, Lag;
    EmptyExact();
  }

  lemma EmptyExact()
    ensures Lag(EMPTY_SECTOR) == 0 && SectorExact(EMPTY_SECTOR) && Lag(ERASED_SECTOR) == 0 && SectorExact(ERASED_SECTOR)
  {
  }

  lemma DirtKeeps(secs: View, sec: nat, dirt: Dirt)
    requires Settled(secs) && Exact(secs) && sec < |secs|
    ensures var t := secs[sec := secs[sec].(dirt := dirt)]; Settled(t) && Exact(t) && LagKept(secs, t)
  {
    hide RecShape, Harmless, Firm;
  }

  lemma GcCached(cache: seq<Option<SecInfo>>, secs: View, size: nat, sec: nat)
    requires CacheOk(cache, secs, size) && sec < |secs| && secs[sec].dirt in {Dirty, Gc}
    ensures CacheOk(cache, secs[sec := secs[sec].(dirt := Gc)], size)
  {
  }
  lemma DirtyFollows(a: seq<Option<SecInfo>>, b: seq<Option<SecInfo>>, secs: View, size: nat, sec: nat, k: int)
    requires CacheOk(a, secs, size) && sec < |secs| && -1 <= k < |a|
    requires k == -1 ==> !IsCached(a, sec) && b == a
    requires k >= 0 ==> a[k].Some? && a[k].value.sec == sec && b == a[k := Some(a[k].value.(dirt := Dirty))]
    ensures CacheOk(b, secs[sec := secs[sec].(dirt := Dirty)], size)
  {
    forall i | 0 <= i < |b| && b[i].Some? ensures InfoOk(b[i].value, secs[sec := secs[sec].(dirt := Dirty)], size) {
      assert InfoOk(a[i].value, secs, size);
    }
  }

  lemma HasRecords(secs: View, size: nat, sec: nat, i: nat)
    requires Shaped(secs, size) && IsRec(secs, sec, i)
    ensures secs[sec].store == Using && RecShape(secs[sec].recs[i])
  {
  }

  lemma CompleteTakesStatus(r: Rec, st: KvStatus)
    requires RecShape(r) && r.Complete() && st != Unused
    ensures RecShape(WithStatus(r, st)) && (Firm(r) ==> Firm(WithStatus(r, st))) && Harmless(WithStatus(r, st))
  {
    hide StatusByte, RecBytes;
    StatusImage(r, st);
  }

  lemma StatusKeepsSector(s: Sector, i: nat, st: KvStatus)
    requires SectorSettled(s) && i < |s.recs| && s.recs[i].Complete() && st != Unused
    ensures var t := SetRecStatus(s, i, st);
            && SectorSettled(t) && Lag(t) == Lag(s) && (SectorExact(s) ==> SectorExact(t))
            && t.End() == s.End() && (!JustOpened(s) ==> !JustOpened(t))
  {
    hide RecShape, Firm, Harmless, SectorExact, Lag;
    CompleteTakesStatus(s.recs[i], st);
    assert RecShape(s.recs[i]) && s.recs[i].written >= KV_HDR;
    ExactSame(s, SetRecStatus(s, i, st));
  }

  lemma StatusKeeps(cache: seq<Option<SecInfo>>, secs: View, size: nat, sec: nat, i: nat, st: KvStatus)
    requires CacheOk(cache, secs, size) && Settled(secs) && Exact(secs) && IsRec(secs, sec, i)
    requires secs[sec].recs[i].Complete() && st != Unused
    ensures var t := secs[sec := SetRecStatus(secs[sec], i, st)];
            CacheOk(cache, t, size) && Settled(t) && Exact(t) && RecShape(WithStatus(secs[sec].recs[i], st))
  {
    hide SectorSettled, Lag, SectorExact, JustOpened, RecShape, Firm;
    StatusKeepsSector(secs[sec], i, st);
    SettledShape(secs[sec], i);
    CompleteTakesStatus(secs[sec].recs[i], st);
  }

  /** The error mark on a record that was cut short. */
  lemma ErrorTakes(r: Rec)
    requires RecShape(r) && r.written >= KV_HDR && r.status == PreWrite
    ensures RecShape(WithStatus(r, ErrHdr)) && (Firm(r) ==> Firm(WithStatus(r, ErrHdr)))
    ensures Harmless(r) ==> Harmless(WithStatus(r, ErrHdr))
  {
    hide StatusByte, RecBytes, Image;
    StatusImage(r, ErrHdr);
    var a, b := Image(r), Image(WithStatus(r, ErrHdr));
    assert forall p :: 1 <= p < |a| ==> b[p] == a[p];
    if |a| >= 16 {
      assert b[16..] == a[16..];
    }
    if Quiet(r) {
      forall q | 5 <= q ensures !MagicAt(b, q) {
        assert !MagicAt(a, q);
      }
    }
  }

  lemma ErrorKeepsSector(s: Sector, i: nat)
    requires SectorSettled(s) && i < |s.recs| && s.recs[i].written >= KV_HDR && s.recs[i].status == PreWrite
    ensures var t := SetRecStatus(s, i, ErrHdr);
            && SectorSettled(t) && Lag(t) == Lag(s) && (SectorExact(s) ==> SectorExact(t))
            && t.End() == s.End() && (!JustOpened(s) ==> !JustOpened(t)) && RecShape(t.recs[i])
  {
    hide RecShape, Firm, Harmless, SectorExact, Lag;
    ErrorTakes(s.recs[i]);
    ExactSame(s, SetRecStatus(s, i, ErrHdr));
  }

  lemma ErrorKeeps(cache: seq<Option<SecInfo>>, secs: View, size: nat, sec: nat, i: nat)
    requires CacheOk(cache, secs, size) && Settled(secs) && Exact(secs) && IsRec(secs, sec, i)
    requires secs[sec].recs[i].written >= KV_HDR && secs[sec].recs[i].status == PreWrite
    ensures var t := secs[sec := SetRecStatus(secs[sec], i, ErrHdr)];
            CacheOk(cache, t, size) && Settled(t) && Exact(t) && RecShape(WithStatus(secs[sec].recs[i], ErrHdr))
  {
    hide SectorSettled, Lag, SectorExact, JustOpened;
    ErrorKeepsSector(secs[sec], i);
  }

  lemma SettledShape(s: Sector, i: nat)
    requires SectorSettled(s) && i < |s.recs|
    ensures RecShape(s.recs[i]) && NoLuck(s.recs[i])
  {
  }

  ghost predicate EntrySet(a: seq<Option<SecInfo>>, b: seq<Option<SecInfo>>, sec: nat, store: Store) {
    || (!IsCached(a, sec) && b == a)
    || exists k {:trigger a[k]} ::
         0 <= k < |a| && a[k].Some? && a[k].value.sec == sec && b == a[k := Some(a[k].value.(store := store))]
  }

  ghost predicate EmptySet(a: seq<Option<SecInfo>>, b: seq<Option<SecInfo>>, sec: nat, end: nat, size: nat)
    requires end <= size
  {
    || (!IsCached(a, sec) && b == a)
    || exists k {:trigger a[k]} :: 0 <= k < |a| && a[k].Some? && a[k].value.sec == sec
         && b == a[k := Some(a[k].value.(emptyKv := Some(end), remain := size - end))]
  }

  // ----- adding a record -----

  ghost function WithRec(s: Sector, r: Rec): Sector {
    Sector(Using, s.dirt, s.recs + [r])
  }

  /** The sector with a complete record added behind the others. */
  ghost function Appended(s: Sector, key: seq<byte>, value: seq<byte>): Sector {
    WithRec(s, Rec(s.End(), Write, key, value, Size(key, value)))
  }

  /**
    What power loss can leave while a record is being added: the sector just opened, or its old
    records and the new one at some stage before WRITE, or the finished sector.
  */
  ghost predicate Stage(s: Sector, t: Sector, key: seq<byte>, value: seq<byte>) {
    || t == Appended(s, key, value)
    || exists r: Rec {:trigger WithRec(s, r)} ::
         && t == WithRec(s, r) && r.off == s.End() && r.status in {Unused, PreWrite}
         && r.short == 0 && (r.written == 4 || (r.key == key && r.value == value))
  }

  /** Every view recorded since `from` shows sector `sec` of `secs` at some stage of the addition. */
  ghost predicate Stages(trace: seq<View>, from: nat, secs: View, sec: nat, key: seq<byte>, value: seq<byte>) {
    sec < |secs| && forall t {:trigger trace[t]} :: from <= t < |trace| ==>
      |trace[t]| == |secs| && trace[t] == secs[sec := trace[t][sec]] && Stage(secs[sec], trace[t][sec], key, value)
  }

  /** The record as `create_kv_blob` and `move_kv` build it, `written` bytes in. */
  ghost function Draft(off: nat, key: seq<byte>, value: seq<byte>, written: nat): Rec {
    if written == 4 then Bare(off, PreWrite) else Rec(off, PreWrite, key, value, written)
  }

  /** A record of `written` bytes is being added to sector `sec` of `was`. */
  ghost predicate InProgress(secs: View, was: View, sec: nat, key: seq<byte>, value: seq<byte>, written: nat) {
    && sec < |was| && Storable(key, value)
    && secs == was[sec := WithRec(was[sec], Draft(was[sec].End(), key, value, written))]
  }

  lemma NotJustOpened(s: Sector, key: seq<byte>, value: seq<byte>)
    ensures !JustOpened(Appended(s, key, value)) && Appended(s, key, value).End() == s.End() + Size(key, value)
  {
    var a := Appended(s, key, value);
    assert a.recs[|s.recs|].status == Write;
  }

  lemma CompleteFirm(r: Rec)
    requires RecShape(r) && r.Complete()
    ensures Firm(r) <==> FirmValue(r.key, r.value)
  {
    hide RecBytes, StatusByte;
  }

  lemma DraftBegins(was: View, sec: nat, key: seq<byte>, value: seq<byte>)
    requires sec < |was| && Storable(key, value)
    ensures InProgress(was[sec := WithRec(was[sec], Bare(was[sec].End(), PreWrite))], was, sec, key, value, 4)
  {
  }

  lemma SourceStays(secs: View, was: View, sec: nat, key: seq<byte>, value: seq<byte>, written: nat, from: nat, i: nat)
    requires InProgress(secs, was, sec, key, value, written) && IsRec(was, from, i)
    ensures IsRec(secs, from, i) && secs[from].recs[i] == was[from].recs[i]
  {
  }

  lemma SourceBytes(b: seq<byte>, r: Rec, x: nat, y: nat)
    requires Holds(b, r) && r.Complete() && 1 <= x <= y <= r.Stated()
    ensures r.off + y <= |b| && b[r.off + x..r.off + y] == RecBytes(r.key, r.value)[x..y]
  {
    hide RecBytes, StatusByte, RecShape, Image;
    SomeBytes(r);
    SubSlice(b, r.off, r.Len(), x, y);
    ImageTail(r, x, y);
  }

  /** What the copying loop reads, while the copy in sector `sec` grows. */
  lemma SourceReads(mem: Memory, secs: View, was: View, size: nat, sec: nat, written: nat, from: nat, i: nat, x: nat,
                    y: nat)
    requires Faithful(mem, secs, size) && IsRec(was, from, i) && was[from].recs[i].Complete()
    requires var r := was[from].recs[i];
             InProgress(secs, was, sec, r.key, r.value, written) && 1 <= x <= y <= r.Stated()
    ensures var r := was[from].recs[i];
            from < |mem| && r.off + y <= |mem[from]| && y <= |RecBytes(r.key, r.value)|
            && mem[from][r.off + x..r.off + y] == RecBytes(r.key, r.value)[x..y]
  {
    hide RecBytes, Image, RecShape, Shaped, BytesOf, InProgress;
    var r := was[from].recs[i];
    SourceStays(secs, was, sec, r.key, r.value, written, from, i);
    RecInPlace(mem, secs, size, from, i);
    SourceCore(mem, secs, size, from, r);
    SourceBytes(mem[from], r, x, y);
  }

  lemma SourceCore(mem: Memory, secs: View, size: nat, from: nat, r: Rec)
    requires Faithful(mem, secs, size) && from < |secs| && (from < |mem| ==> Holds(mem[from], r))
    ensures from < |mem| && Storable(r.key, r.value)
  {
  }

  lemma ImageTail(r: Rec, x: nat, y: nat)
    requires RecShape(r) && r.Complete() && 1 <= x <= y <= r.Len()
    ensures Image(r)[x..y] == RecBytes(r.key, r.value)[x..y]
  {
    hide RecBytes, StatusByte;
    TailOfImage(Image(r), RecBytes(r.key, r.value), StatusByte(r.status.Index()), x, y);
  }

  lemma NoStages(trace: seq<View>, secs: View, sec: nat, key: seq<byte>, value: seq<byte>)
    requires sec < |secs|
    ensures Stages(trace, |trace|, secs, sec, key, value)
  {
  }

  lemma DraftStage(trace: seq<View>, from: nat, secs: View, sec: nat, key: seq<byte>, value: seq<byte>, r: Rec)
    requires sec < |secs| && Stages(trace, from, secs, sec, key, value) && from <= |trace|
    requires r.off == secs[sec].End() && r.status in {Unused, PreWrite} && r.short == 0
    requires r.written == 4 || (r.key == key && r.value == value)
    ensures Stages(trace + [secs[sec := WithRec(secs[sec], r)]], from, secs, sec, key, value)
  {
  }

  lemma LastStage(trace: seq<View>, from: nat, secs: View, sec: nat, key: seq<byte>, value: seq<byte>)
    requires sec < |secs| && Stages(trace, from, secs, sec, key, value) && from <= |trace|
    ensures Stages(trace + [secs[sec := Appended(secs[sec], key, value)]], from, secs, sec, key, value)
  {
  }

  lemma DraftGrows(s: Sector, key: seq<byte>, value: seq<byte>, w: nat, n: nat)
    requires Storable(key, value) && (w == 4 || KV_HDR <= w) && w <= n && KV_HDR <= n <= Size(key, value)
    ensures var a, b := Draft(s.End(), key, value, w), Draft(s.End(), key, value, n);
            Continues(a, b) && WithLast(WithRec(s, a), b) == WithRec(s, b) && LastOf(WithRec(s, a)) == a
            && NextBytes(a, b) == RecBytes(key, value)[w..n]
  {
    hide RecBytes;
  }

  lemma DraftDone(s: Sector, key: seq<byte>, value: seq<byte>)
    requires Storable(key, value)
    ensures var a := WithRec(s, Draft(s.End(), key, value, Size(key, value)));
            SetRecStatus(a, |s.recs|, Write) == Appended(s, key, value)
            && RecShape(WithStatus(a.recs[|s.recs|], Write)) && a.recs[|s.recs|].status.Index() <= Write.Index()
            && a.recs[|s.recs|].off == s.End()
  {
    hide RecBytes;
  }

  /** The pieces `create_kv_blob` writes. */
  lemma RecPieces(key: seq<byte>, value: seq<byte>)
    requires Storable(key, value)
    ensures var b := RecBytes(key, value);
            b[4..KV_HDR] == HeaderBytes(key, value)[4..] && b[KV_HDR..KV_HDR + |key|] == key &&
            b[KV_HDR + |key|..Size(key, value)] == value
  {
    hide HeaderBytes;
    ThreeParts(HeaderBytes(key, value), key, value);
    assert RecBytes(key, value)[4..KV_HDR] == HeaderBytes(key, value)[4..KV_HDR];
  }

  ghost predicate FirmValue(key: seq<byte>, value: seq<byte>)
    requires Storable(key, value)
  {
    RecBytes(key, value)[Size(key, value) - 1] != ERASED
  }

  lemma AppendedFirm(s: Sector, key: seq<byte>, value: seq<byte>)
    requires Storable(key, value)
    ensures FirmValue(key, value) <==> Firm(Rec(s.End(), Write, key, value, Size(key, value)))
  {
    hide RecBytes, StatusByte;
  }

  lemma {:induction false} VisibleLenPrefix(a: seq<Rec>, b: seq<Rec>, n: nat)
    requires n <= |a| <= |b| && a == b[..|a|]
    ensures VisibleLen(a, n) == VisibleLen(b, n) && EndOf(a, n) == EndOf(b, n)
  {
    if n > 0 {
      VisibleLenPrefix(a, b, n - 1);
      assert a[n - 1] == b[n - 1];
    }
  }

  /** A record that states its true length, behind the others. */
  lemma WithRecAhead(s: Sector, r: Rec)
    requires NeverAhead(s.recs) && r.off == s.End() && Visible(r) && r.Len() == r.Stated()
    ensures NeverAhead(WithRec(s, r).recs) && Lag(WithRec(s, r)) == Lag(s)
  {
    hide VisibleLen;
    var a, b := s.recs, WithRec(s, r).recs;
    forall n | 0 <= n <= |b| ensures SECTOR_HDR + VisibleLen(b, n) <= EndOf(b, n) {
      if n <= |a| {
        VisibleLenPrefix(a, b, n);
      }
      if n == |b| {
        WithRecLen(s, r);
        assert SECTOR_HDR + VisibleLen(a, |a|) <= EndOf(a, |a|);
      }
    }
    WithRecLen(s, r);
  }

  lemma WithRecLen(s: Sector, r: Rec)
    requires Visible(r)
    ensures VisibleLen(WithRec(s, r).recs, |s.recs| + 1) == VisibleLen(s.recs, |s.recs|) + r.Stated()
    ensures WithRec(s, r).End() == r.End()
  {
    VisibleLenPrefix(s.recs, WithRec(s, r).recs, |s.recs|);
  }

  lemma AppendedExact(s: Sector, key: seq<byte>, value: seq<byte>)
    requires SectorExact(s) && Storable(key, value) && (Even(s) || FirmValue(key, value))
    ensures SectorExact(Appended(s, key, value)) && Lag(Appended(s, key, value)) == Lag(s)
  {
    hide RecShape, Firm, FirmValue, NeverAhead, Lag;
    var r := Rec(s.End(), Write, key, value, Size(key, value));
    AppendedFirm(s, key, value);
    AppendedShape(s, key, value);
    WithRecAhead(s, r);
  }

  lemma AppendedKeeps(secs: View, sec: nat, key: seq<byte>, value: seq<byte>)
    requires Settled(secs) && Exact(secs) && sec < |secs| && Storable(key, value)
    requires Even(secs[sec]) || FirmValue(key, value)
    ensures var t := secs[sec := Appended(secs[sec], key, value)]; Settled(t) && Exact(t) && LagKept(secs, t)
  {
    hide RecShape, Harmless, FirmValue, SectorExact, Lag;
    AppendedExact(secs[sec], key, value);
    AppendedShape(secs[sec], key, value);
  }

  lemma AppendedShape(s: Sector, key: seq<byte>, value: seq<byte>)
    requires Storable(key, value)
    ensures var r := Rec(s.End(), Write, key, value, Size(key, value));
            RecShape(r) && Harmless(r) && r.Len() == r.Stated() >= KV_HDR && r.Complete() && Size(key, value) >= KV_HDR
  {
  }

  lemma CacheAppended(a: seq<Option<SecInfo>>, b: seq<Option<SecInfo>>, secs: View, size: nat, sec: nat, t: Sector,
                      k: int)
    requires CacheOk(a, secs, size) && sec < |secs| && -1 <= k < |a| && t.store == Using && t.dirt == secs[sec].dirt
    requires !JustOpened(t)
    requires k == -1 ==> !IsCached(a, sec) && b == a
    requires k >= 0 ==> a[k].Some? && a[k].value.sec == sec && t.End() <= size
                        && b == a[k := Some(a[k].value.(store := Using, emptyKv := Some(t.End()),
                               remain := size - t.End()))]
    ensures CacheOk(b, secs[sec := t], size)
  {
    hide JustOpened;
    forall i | 0 <= i < |b| && b[i].Some? ensures InfoOk(b[i].value, secs[sec := t], size) {
      assert InfoOk(a[i].value, secs, size);
    }
  }

  ghost predicate CacheStarted(a: seq<Option<SecInfo>>, b: seq<Option<SecInfo>>, sec: nat, store: Store) {
    if store == Using then b == a else EntrySet(a, b, sec, Using)
  }

  lemma CacheCompleted(a: seq<Option<SecInfo>>, b: seq<Option<SecInfo>>, c: seq<Option<SecInfo>>, secs: View, size: nat,
                       sec: nat, t: Sector)
    requires CacheOk(a, secs, size) && sec < |secs| && t.store == Using && t.dirt == secs[sec].dirt && !JustOpened(t)
    requires t.End() <= size
    requires CacheStarted(a, b, sec, secs[sec].store) && EmptySet(b, c, sec, t.End(), size)
    ensures CacheOk(c, secs[sec := t], size)
  {
    hide JustOpened;
    if IsCached(a, sec) {
      var k :| 0 <= k < |a| && a[k].Some? && a[k].value.sec == sec;
      assert InfoOk(a[k].value, secs, size);
      assert b == a[k := Some(a[k].value.(store := Using))];
      assert c == b[k := Some(b[k].value.(emptyKv := Some(t.End()), remain := size - t.End()))];
      CacheAppended(a, c, secs, size, sec, t, k);
    } else {
      CacheAppended(a, c, secs, size, sec, t, -1);
    }
  }

  lemma BeginIsDraft(s: Sector)
    ensures (s.store == Empty && s.recs == [] ==>
               Opened(s) == WithRec(s, Bare(s.End(), Unused)) && NextSlot(Opened(s)) == s.End() &&
               Begun(Opened(s)) == WithRec(s, Bare(s.End(), PreWrite)))
    ensures (s.store == Using && !JustOpened(s) ==>
                NextSlot(s) == s.End() && Begun(s) == WithRec(s, Bare(s.End(), PreWrite)))
  {
  }

  // ----- cache facts -----

  ghost predicate IsCached(cache: seq<Option<SecInfo>>, sec: nat) {
    exists k :: 0 <= k < |cache| && cache[k].Some? && cache[k].value.sec == sec
  }

  ghost predicate KnownEmpty(cache: seq<Option<SecInfo>>, sec: nat, off: nat) {
    exists k :: 0 <= k < |cache| && cache[k].Some? && cache[k].value.sec == sec && cache[k].value.emptyKv == Some(off)
  }

  /** One slot may change: the one of this sector, or, for a valid sector not cached yet, a free one. */
  ghost predicate CacheUpdated(a: seq<Option<SecInfo>>, b: seq<Option<SecInfo>>, info: SecInfo) {
    || (exists k {:trigger a[k]} :: 0 <= k < |a| && a[k].Some? && a[k].value.sec == info.sec
                 && b == a[k := if info.checkOk then Some(info) else None])
    || (!IsCached(a, info.sec) && b == a)
    || (!IsCached(a, info.sec) && info.checkOk && exists k {:trigger a[k]} ::
        0 <= k < |a| && a[k].None? && b == a[k := Some(info)])
  }

  lemma CachedInfo(cache: seq<Option<SecInfo>>, secs: View, size: nat, k: nat)
    requires CacheOk(cache, secs, size) && k < |cache| && cache[k].Some?
    ensures InfoOk(cache[k].value, secs, size)
  {
  }

  lemma CacheTakes(a: seq<Option<SecInfo>>, b: seq<Option<SecInfo>>, secs: View, size: nat, info: SecInfo)
    requires CacheOk(a, secs, size) && CacheUpdated(a, b, info) && (info.checkOk ==> InfoOk(info, secs, size))
    ensures CacheOk(b, secs, size)
  {
    hide InfoOk;
  }

  lemma CacheSize(cache: seq<Option<SecInfo>>, secs: View, size: nat)
    requires CacheOk(cache, secs, size)
    ensures |cache| == SECTOR_CACHE_SIZE
  {
  }

  /** A sector replaced by a formatted one, its cache entry dropped. */
  lemma CacheForgets(a: seq<Option<SecInfo>>, b: seq<Option<SecInfo>>, secs: View, size: nat, info: SecInfo, s: Sector)
    requires CacheOk(a, secs, size) && CacheUpdated(a, b, info) && !info.checkOk && info.sec < |secs|
    ensures CacheOk(b, secs[info.sec := s], size)
  {
    hide JustOpened;
  }

  lemma MagicFits(b: seq<byte>, q: nat)
    requires MagicAt(b, q)
    ensures q + 4 <= |b|
  {
  }

  lemma CompleteLocated(kv: KvInfo, sec: nat, r: Rec, st: KvStatus)
    requires RecShape(r) && r.Complete() && st != Unused && Locates(kv, sec, r)
    ensures RecShape(WithStatus(r, st)) && Locates(kv, sec, WithStatus(r, st))
  {
    CompleteIsGood(r);
    CompleteIsGood(WithStatus(r, st));
  }

  lemma ReportedStart(kv: KvInfo, sec: nat, r: Rec)
    requires RecShape(r) && Locates(kv, sec, r)
    ensures (if kv.crcOk then kv.start.off + kv.len else kv.start.off + 1) == ScanStart(r)
    ensures kv.len > 0 && kv.start == Addr(sec, r.off)
  {
  }

  /** The scan rule for a record in place, with the bounds the windows respect. */
  lemma NextRules(mem: Memory, secs: View, size: nat, sec: nat, i: nat)
    requires Faithful(mem, secs, size) && Settled(secs) && IsRec(secs, sec, i) && Visible(secs[sec].recs[i])
    ensures RecShape(secs[sec].recs[i])
    ensures var s := secs[sec]; var j := NextVisible(s.recs, i); var from := ScanStart(s.recs[i]);
            && (j < |s.recs| ==>
                  MagicAt(mem[sec], s.recs[j].off + 4) && from <= s.recs[j].off &&
                  s.recs[j].off + REMAIN_THRESHOLD < size)
            && forall q ::
                 from + 4 <= q < (if j < |s.recs| then s.recs[j].off + 4 else |mem[sec]|) ==> !MagicAt(mem[sec], q)
  {
    hide Image, StatusByte, RecShape, CrcGood, Quiet, MagicAt;
    assert SectorBytes(mem[sec], secs[sec]);
    ScanFindsNext(mem[sec], secs[sec], i);
    var j := NextVisible(secs[sec].recs, i);
    if j < |secs[sec].recs| {
      RecInPlace(mem, secs, size, sec, j);
    }
  }

  /** When the cache says the scan would start in free space, the record was the last one. */
  lemma CachedEndIsLast(cache: seq<Option<SecInfo>>, secs: View, size: nat, sec: nat, i: nat)
    requires CacheOk(cache, secs, size) && Shaped(secs, size) && IsRec(secs, sec, i) && Visible(secs[sec].recs[i])
    ensures RecShape(secs[sec].recs[i])
    ensures KnownEmpty(cache, sec, ScanStart(secs[sec].recs[i])) ==> NextVisible(secs[sec].recs, i) == |secs[sec].recs|
  {
    hide Image, StatusByte, RecShape, CrcGood;
    var recs := secs[sec].recs;
    var j := NextVisible(recs, i);
    if KnownEmpty(cache, sec, ScanStart(recs[i])) && j < |recs| {
      ChainedEnds(recs, i);
      ChainedEnds(recs, j);
      assert recs[i].End() <= recs[j].off;
    }
  }

  lemma ReportsBad(kv: KvInfo, sec: nat, r: Rec)
    requires RecShape(r) && !CrcGood(r)
    requires kv.start == Addr(sec, r.off) && kv.len == r.Stated() && kv.status == r.status && !kv.crcOk
    ensures Reports(kv, sec, r)
  {
    CompleteNotBad(r);
  }

  lemma RecInPlace(mem: Memory, secs: View, size: nat, sec: nat, i: nat)
    requires Faithful(mem, secs, size) && IsRec(secs, sec, i)
    ensures Holds(mem[sec], secs[sec].recs[i])
    ensures SECTOR_HDR <= secs[sec].recs[i].off < secs[sec].recs[i].End() <= secs[sec].End() < size - REMAIN_THRESHOLD
    ensures secs[sec].recs[i].off + secs[sec].recs[i].Stated() < size - REMAIN_THRESHOLD
  {
    hide RecShape, Image, StatusByte;
    assert SectorBytes(mem[sec], secs[sec]);
    ChainedEnds(secs[sec].recs, i);
  }

  lemma StepFaithful(mem: Memory, secs: View, sec: nat, m: seq<byte>, s: Sector, size: nat)
    requires Faithful(mem, secs, size) && sec < |secs|
    requires SectorBytes(m, s) && SectorShape(s, size) && |m| == size
    ensures Faithful(mem[sec := m], secs[sec := s], size)
  {
    hide SectorBytes, SectorShape;
    var mem', secs' := mem[sec := m], secs[sec := s];
    forall i | 0 <= i < |secs'| ensures SectorBytes(mem'[i], secs'[i]) {
      assert i != sec ==> SectorBytes(mem[i], secs[i]);
    }
  }

  /** A sector just opened holds one bare record that is nothing but erased bytes. */
  ghost predicate JustOpened(s: Sector) {
    s.recs == [Bare(SECTOR_HDR, Unused)]
  }

  /** Where the next record goes. */
  ghost function NextSlot(s: Sector): nat {
    if JustOpened(s) then SECTOR_HDR else s.End()
  }

  ghost function LastOf(s: Sector): Rec
    requires s.recs != []
  {
    s.recs[|s.recs| - 1]
  }

  /** The sector with a record started at its next slot. */
  ghost function Begun(s: Sector): Sector {
    s.(recs := (if JustOpened(s) then [] else s.recs) + [Bare(NextSlot(s), PreWrite)])
  }

  lemma OpenedBytes(b: seq<byte>, s: Sector)
    requires SectorBytes(b, s) && SectorShape(s, |b|) && s.store == Empty
    requires SECTOR_HDR + KV_HDR + REMAIN_THRESHOLD < |b|
    ensures SectorBytes(Program(b, 0, [StatusByte(Using.Index())]), Opened(s)) && SectorShape(Opened(s), |b|)
  {
    hide SectorBytes, StatusByte;
    StoreWritten(b, s, Using);
    AppendBareBytes(Program(b, 0, [StatusByte(Using.Index())]), s.(store := Using));
    assert AppendBare(s.(store := Using)) == Opened(s);
  }

  lemma BegunBytes(b: seq<byte>, s: Sector)
    requires SectorBytes(b, s) && SectorShape(s, |b|) && s.store == Using && NoBare(s.recs)
    requires NextSlot(s) + KV_HDR + REMAIN_THRESHOLD < |b|
    ensures SectorBytes(Program(b, NextSlot(s), [StatusByte(PreWrite.Index())]), Begun(s)) && SectorShape(Begun(s), |b|)
  {
    hide SectorBytes, StatusByte;
    if JustOpened(s) {
      SetRecStatusShape(s, |b|, 0, PreWrite);
      SetRecStatusBytes(b, s, 0, PreWrite);
      assert SetRecStatus(s, 0, PreWrite) == Begun(s);
    } else {
      AppendBareBytes(b, s);
      var t := AppendBare(s);
      SetRecStatusShape(t, |b|, |s.recs|, PreWrite);
      SetRecStatusBytes(b, t, |s.recs|, PreWrite);
      assert SetRecStatus(t, |s.recs|, PreWrite) == Begun(s);
    }
  }

  lemma WithLastShape(s: Sector, size: nat, n: Rec)
    requires SectorShape(s, size) && s.recs != [] && Continues(LastOf(s), n) && n.End() + REMAIN_THRESHOLD < size
    ensures SectorShape(WithLast(s, n), size)
  {
    WithLastChained(s.recs, n);
  }
}
