/**
  What power loss leaves. The bytes on flash at any point of an operation, read afresh, are those
  of a settled view: a status byte whose header was never written turns into a byte nobody reads,
  and a record cut short loses erased bytes at its end if earlier left-overs make the traversal stop
  before it. In that view the traversal finds the end of every sector.
*/
module KvCrash {
  import opened Bytes
  import opened Status
  import opened NorFlash
  import opened KvLayout
  import opened KvImage
  import opened KvWalk
  import opened KvView
  import opened KvModel
  import opened KvRest
  import KvLog

  function Scrap(off: nat): Rec {
    Rec(off, PreWrite, [], [], 1)
  }

  /** Erased bytes at the end of `b`. */
  ghost function Tail(b: seq<byte>): (n: nat)
    ensures n <= |b| && (forall p :: |b| - n <= p < |b| ==> b[p] == ERASED) && (n < |b| ==> b[|b| - n - 1] != ERASED)
  {
    if b == [] || b[|b| - 1] != ERASED then 0 else 1 + Tail(b[..|b| - 1])
  }

  /** A record whose writing had begun, header and all, when the power failed. */
  predicate Unfinished(r: Rec) {
    RecShape(r) && r.status == PreWrite && KV_HDR <= r.written && r.short == 0
  }

  /** The record without its last `n` bytes. */
  function Cut(r: Rec, n: nat): Rec
    requires n <= r.Stated()
  {
    r.(short := n, written := if r.written <= r.Stated() - n then r.written else r.Stated() - n)
  }

  /** How many of its erased bytes a last record that was cut short loses to the next one. */
  ghost function Lost(s: Sector): (n: nat)
    requires s.recs != [] && Unfinished(LastOf(s))
    ensures n <= Lag(s) && n <= Tail(Image(LastOf(s))) && n + KV_HDR <= LastOf(s).Stated()
    ensures n == Lag(s) || n == Tail(Image(LastOf(s))) || n + KV_HDR == LastOf(s).Stated()
  {
    var m := if Lag(s) < Tail(Image(LastOf(s))) then Lag(s) else Tail(Image(LastOf(s)));
    if m + KV_HDR <= LastOf(s).Stated() then m else LastOf(s).Stated() - KV_HDR
  }

  /** The sector as the next boot finds it. */
  ghost function Reread(s: Sector): Sector {
    if |s.recs| > 1 && LastOf(s).written == 4 then
      s.(recs := s.recs[..|s.recs| - 1] + (if LastOf(s).status == PreWrite then [Scrap(LastOf(s).off)] else []))
    else if s.recs != [] && Unfinished(LastOf(s)) then WithLast(s, Cut(LastOf(s), Lost(s)))
    else s
  }

  ghost function RereadAll(secs: View): (t: View)
    ensures |t| == |secs| && forall i :: 0 <= i < |secs| ==> t[i] == Reread(secs[i])
  {
    seq(|secs|, i requires 0 <= i < |secs| => Reread(secs[i]))
  }

  lemma ScrapImage(off: nat)
    ensures RecShape(Scrap(off)) && Image(Scrap(off)) == [StatusByte(PreWrite.Index())]
  {
    hide StatusByte;
  }

  /** The erased rest of a bare record: only its first byte can be programmed. */
  lemma BareTail(b: seq<byte>, r: Rec)
    requires Holds(b, r) && r.written == 4
    ensures b[r.off] == StatusByte(r.status.Index()) && forall p :: r.off < p < r.End() ==> b[p] == ERASED
  {
    hide Image, StatusByte;
    forall p | r.off <= p < r.End() ensures if p == r.off then b[p] == StatusByte(r.status.Index())
        else b[p] == ERASED {
      ImageAt(r, p - r.off);
      assert b[p] == b[r.off..r.End()][p - r.off];
    }
  }

  lemma RereadChained(recs: seq<Rec>)
    requires Chained(recs) && |recs| > 1
    ensures Chained(recs[..|recs| - 1]) && Chained(recs[..|recs| - 1] + [Scrap(recs[|recs| - 1].off)])
    ensures recs[|recs| - 2].End() == recs[|recs| - 1].off
  {
    hide RecShape;
    var n := recs[..|recs| - 1];
    assert Adjacent(recs, |recs| - 2);
    forall i | 0 <= i < |n| - 1 ensures Adjacent(n, i) {
      assert Adjacent(recs, i);
    }
    var m := n + [Scrap(recs[|recs| - 1].off)];
    ScrapImage(recs[|recs| - 1].off);
    forall i | 0 <= i < |m| - 1 ensures Adjacent(m, i) {
      assert Adjacent(recs, i);
    }
  }

  // ----- a record without its last bytes -----

  lemma CutShape(r: Rec, n: nat)
    requires Unfinished(r) && n + KV_HDR <= r.Stated()
    ensures RecShape(Cut(r, n)) && Cut(r, n).Len() == r.Len() - n && r.Len() == r.Stated()
    ensures KV_HDR <= Cut(r, n).written
    ensures n == 0 ==> Cut(r, n) == r
  {
  }

  lemma CutByte(r: Rec, n: nat, p: nat)
    requires Unfinished(r) && n + KV_HDR <= r.Stated() && n <= Tail(Image(r)) && p + n < r.Len()
    ensures RecShape(Cut(r, n)) && p < Cut(r, n).Len() && Image(Cut(r, n))[p] == Image(r)[p]
  {
    hide RecBytes, StatusByte, Image;
    CutShape(r, n);
    ImageAt(r, p);
    ImageAt(Cut(r, n), p);
  }

  /** It still lies where it lay, and what it lost is erased. */
  lemma CutHolds(b: seq<byte>, r: Rec, n: nat)
    requires Holds(b, r) && Unfinished(r) && n + KV_HDR <= r.Stated() && n <= Tail(Image(r))
    ensures Holds(b, Cut(r, n)) && r.End() <= |b| && Cut(r, n).End() == r.End() - n
    ensures forall p :: Cut(r, n).End() <= p < r.End() ==> b[p] == ERASED
  {
    hide RecBytes, StatusByte, Image, RecShape, Cut;
    CutShape(r, n);
    CutPlace(r, n);
    var c, img := Cut(r, n), Image(r);
    assert forall p :: 0 <= p < r.Len() ==> b[r.off + p] == b[r.off..r.End()][p] == img[p];
    forall p | 0 <= p < c.Len() ensures b[c.off..c.End()][p] == Image(c)[p] {
      CutByte(r, n, p);
    }
    assert b[c.off..c.End()] == Image(c);
    forall p | c.End() <= p < r.End() ensures b[p] == ERASED {
      assert b[p] == img[p - r.off];
    }
  }

  lemma CutPlace(r: Rec, n: nat)
    requires n <= r.Stated()
    ensures Cut(r, n).off == r.off && Cut(r, n).Stated() == r.Stated() && Cut(r, n).status == r.status
    ensures Cut(r, n).key == r.key
    ensures Cut(r, n).short == n && Cut(r, n).value == r.value
  {
  }

  // ----- the bytes of the sector spell out what is read afresh -----

  lemma BareShape(s: Sector, size: nat)
    requires SectorShape(s, size) && |s.recs| > 1 && LastOf(s).written == 4
    ensures SectorShape(Reread(s), size)
  {
    hide RecShape, Chained;
    var t := Reread(s);
    RereadChained(s.recs);
    BareIsLast(s.recs);
    forall i | 0 <= i < |t.recs| ensures i < |s.recs| - 1 ==> t.recs[i] == s.recs[i] {}
    if LastOf(s).status != PreWrite {
      assert t.recs == s.recs[..|s.recs| - 1];
    }
    assert BareLast(t.recs);
    ChainedEnds(s.recs, |s.recs| - 1);
    assert t.End() <= s.End();
  }

  lemma CutSectorShape(s: Sector, size: nat, n: nat)
    requires SectorShape(s, size) && s.recs != [] && Unfinished(LastOf(s)) && n + KV_HDR <= LastOf(s).Stated()
    ensures SectorShape(WithLast(s, Cut(LastOf(s), n)), size)
  {
    hide RecShape, Chained, Cut, Unfinished;
    CutShape(LastOf(s), n);
    CutPlace(LastOf(s), n);
    WithLastChained(s.recs, Cut(LastOf(s), n));
  }

  lemma BareBytes(b: seq<byte>, s: Sector, size: nat)
    requires SectorBytes(b, s) && SectorShape(s, size) && |s.recs| > 1 && LastOf(s).written == 4
    ensures SectorBytes(b, Reread(s))
  {
    hide Image, StatusByte, SectorHeader, RecShape, Chained;
    var t, r := Reread(s), LastOf(s);
    RereadChained(s.recs);
    BareIsLast(s.recs);
    assert Holds(b, r);
    SomeBytes(r);
    BareTail(b, r);
    ScrapImage(r.off);
    StatusOfUnused();
    assert b[r.off..r.off + 1] == [b[r.off]];
    forall i | 0 <= i < |t.recs| ensures Holds(b, t.recs[i]) {
      if i < |s.recs| - 1 {
        assert t.recs[i] == s.recs[i];
      }
    }
  }

  lemma CutBytes(b: seq<byte>, s: Sector, n: nat)
    requires SectorBytes(b, s) && s.recs != [] && Unfinished(LastOf(s)) && n + KV_HDR <= LastOf(s).Stated()
    requires n <= Tail(Image(LastOf(s)))
    ensures SectorBytes(b, WithLast(s, Cut(LastOf(s), n)))
  {
    hide Image, StatusByte, SectorHeader, RecShape, Cut, Unfinished, Holds;
    assert Holds(b, LastOf(s));
    CutHolds(b, LastOf(s), n);
    CutPlace(LastOf(s), n);
  }

  lemma RereadBytes(b: seq<byte>, s: Sector, size: nat)
    requires SectorBytes(b, s) && SectorShape(s, size)
    ensures SectorBytes(b, Reread(s)) && SectorShape(Reread(s), size)
  {
    hide Image, SectorBytes, SectorShape, Cut, Lost, RecShape;
    if |s.recs| > 1 && LastOf(s).written == 4 {
      BareShape(s, size);
      BareBytes(b, s, size);
    } else if s.recs != [] && Unfinished(LastOf(s)) {
      CutSectorShape(s, size, Lost(s));
      CutBytes(b, s, Lost(s));
    }
  }

  lemma BareIsLast(recs: seq<Rec>)
    requires BareLast(recs) && |recs| > 1 && recs[|recs| - 1].written == 4
    ensures recs[|recs| - 1].status in {Unused, PreWrite}
    ensures forall i :: 0 < i < |recs| - 1 ==> recs[i].written != 4
  {
  }

  lemma StatusOfUnused()
    ensures StatusByte(Unused.Index()) == ERASED
  {
    StatusByteBits(0);
  }

  lemma RereadRecords(secs: View)
    ensures SameRecords(secs, RereadAll(secs))
  {
    var t := RereadAll(secs);
    forall p, st, k | st in {Write, PreDelete} ensures At(secs, p, st, k) <==> At(t, p, st, k) {
      RereadAt(secs, p, st, k);
    }
    forall p, st, k | st in {Write, PreDelete} && At(secs, p, st, k) ensures ValueAt(secs, p) == ValueAt(t, p) {
      RereadAt(secs, p, st, k);
    }
  }

  lemma RereadAt(secs: View, p: Pos, st: KvStatus, k: Key)
    requires st in {Write, PreDelete}
    ensures At(secs, p, st, k) <==> At(RereadAll(secs), p, st, k)
    ensures At(secs, p, st, k) ==> RecAt(secs, p) == RecAt(RereadAll(secs), p)
  {
    hide Reread;
    if p.sec < |secs| {
      RereadRec(secs[p.sec], p.idx);
    }
  }

  /** Only a record that is neither live nor half-deleted is read as another one. */
  lemma RereadRec(s: Sector, i: nat)
    ensures |Reread(s).recs| <= |s.recs| && (|Reread(s).recs| <= i < |s.recs| ==> s.recs[i].written == 4)
    ensures i < |Reread(s).recs| ==>
              Reread(s).recs[i] == s.recs[i] || (s.recs[i].status == Reread(s).recs[i].status == PreWrite)
  {
    hide Lost, RecShape, Cut;
    if s.recs != [] && Unfinished(LastOf(s)) {
      CutPlace(LastOf(s), Lost(s));
    }
  }

  /**
    Every point of power loss: the flash contents after any write spell out, read afresh, a view with
    the same complete records.
  */
  lemma CrashPoint(log: KvLog.Log, t: nat)
    requires log.Core() && t < |log.trace|
    ensures var c := RereadAll(log.trace[t]);
            Faithful(log.flash.hist[t], c, log.flash.secSize) && SameRecords(log.trace[t], c)
  {
    hide SectorBytes, SectorShape, Reread, SameRecords;
    var m, v, size := log.flash.hist[t], log.trace[t], log.flash.secSize;
    assert Faithful(m, v, size);
    forall i | 0 <= i < |v| ensures SectorBytes(m[i], RereadAll(v)[i]) && SectorShape(RereadAll(v)[i], size) {
      assert SectorBytes(m[i], v[i]) && SectorShape(v[i], size);
      RereadBytes(m[i], v[i], size);
    }
    RereadRecords(v);
  }

  // ----- what is read afresh is fit for the next boot -----

  /** What a boot needs of every sector but its header. */
  ghost predicate SectorFit(s: Sector) {
    SectorSettled(s) && SectorExact(s)
  }

  /** Nothing changes in a sector in which no record is being added. */
  lemma FitRereads(s: Sector)
    requires SectorFit(s)
    ensures Reread(s) == s
  {
    hide Image, Harmless, NeverAhead, VisibleLen;
    if s.recs != [] && Unfinished(LastOf(s)) {
      var r := LastOf(s);
      assert Even(s) || Tail(Image(r)) == 0;
      assert Lost(s) == 0;
      CutShape(r, 0);
      assert s.recs[|s.recs| - 1 := r] == s.recs;
    }
  }

  /**
    A record that may be cut short anywhere in a sector with up to `lag` bytes left over from earlier
    power cuts: no part of it is taken for a record, and none of it passes the CRC check.
  */
  ghost predicate TameAt(lag: nat, key: Key, value: Value) {
    forall r: Rec ::
      RecShape(r) && r.key == key && r.value == value && r.status == PreWrite && r.short <= lag ==> Harmless(r)
  }

  /** The same for every sector of the store. */
  ghost predicate Tame(secs: View, key: Key, value: Value) {
    forall i :: 0 <= i < |secs| ==> TameAt(Lag(secs[i]), key, value)
  }

  /** No part of the record holds the magic word of a record, however much of it was written. */
  ghost predicate NoMagicIn(key: Key, value: Value) {
    forall r: Rec ::
      RecShape(r) && r.key == key && r.value == value && r.status == PreWrite && r.written >= KV_HDR && r.short == 0 ==>
        Quiet(r)
  }

  /** Without left-over bytes that is all it takes. */
  lemma EvenTame(a: View, key: Key, value: Value)
    requires AllEven(a) && NoMagicIn(key, value)
    ensures Tame(a, key, value)
  {
    hide Lag, Quiet, Image;
  }

  lemma TameKept(a: View, b: View, key: Key, value: Value)
    requires Tame(a, key, value) && LagKept(a, b)
    ensures Tame(b, key, value)
  {
    hide Lag, Harmless, RecShape;
    forall i | 0 <= i < |b| ensures TameAt(Lag(b[i]), key, value) {
      assert TameAt(Lag(a[i]), key, value);
    }
  }

  /** The last byte of a header is programmed, in a sector that can hold the record twice over. */
  lemma HeaderEnds(r: Rec)
    requires RecShape(r) && r.written >= KV_HDR && |r.value| < 0x8000_0000
    ensures r.Len() >= KV_HDR && Image(r)[KV_HDR - 1] != ERASED
  {
    hide RecCrc, StatusByte, Image, CrcHead;
    ImageFields(r);
    assert Image(r)[KV_HDR - 1] == Image(r)[16..24][7] == CrcHead(r.key, r.value)[7];
    LengthEnds(r.key, r.value);
  }

  lemma LengthEnds(key: Key, value: Value)
    requires Storable(key, value) && |value| < 0x8000_0000
    ensures CrcHead(key, value)[7] != ERASED
  {
  }

  /** A record that was cut short, once it has lost what it loses: the traversal ends behind it. */
  lemma CutExact(s: Sector, r: Rec, size: nat)
    requires NeverAhead(s.recs) && r.off == s.End() && Unfinished(r) && r.off + r.Stated() < size <= U32_LIMIT
    ensures var t := WithRec(s, r);
            LastOf(t) == r && WithLast(t, Cut(r, Lost(t))) == WithRec(s, Cut(r, Lost(t))) &&
            SectorExact(WithRec(s, Cut(r, Lost(t))))
    ensures Lag(WithRec(s, r)) == Lag(s)
  {
    hide VisibleLen, Image, NeverAhead, RecShape, Cut;
    var t := WithRec(s, r);
    var n, w := Lost(t), WithRec(s, Cut(r, Lost(t)));
    CutShape(r, n);
    CutPlace(r, n);
    UnfinishedSeen(r);
    WithRecAhead(s, r);
    WithRecLen(s, r);
    WithRecLen(s, Cut(r, n));
    CutAhead(s, r, n);
    assert t.recs[|t.recs| - 1 := Cut(r, n)] == w.recs;
    if n < Lag(t) {
      LostFirm(t, size);
    }
  }

  lemma UnfinishedSeen(r: Rec)
    requires Unfinished(r)
    ensures Visible(r) && r.Len() == r.Stated() && forall n: nat :: n + KV_HDR <= r.Stated() ==> Visible(Cut(r, n))
  {
  }

  lemma CutAhead(s: Sector, r: Rec, n: nat)
    requires NeverAhead(s.recs) && r.off == s.End() && Unfinished(r) && n <= Lag(s) && n + KV_HDR <= r.Stated()
    ensures NeverAhead(WithRec(s, Cut(r, n)).recs) && Lag(WithRec(s, Cut(r, n))) == Lag(s) - n
  {
    hide VisibleLen, RecShape;
    CutShape(r, n);
    UnfinishedSeen(r);
    var a, b := s.recs, WithRec(s, Cut(r, n)).recs;
    WithRecLen(s, Cut(r, n));
    assert SECTOR_HDR + VisibleLen(a, |a|) <= EndOf(a, |a|);
    forall m | 0 <= m <= |b| ensures SECTOR_HDR + VisibleLen(b, m) <= EndOf(b, m) {
      if m <= |a| {
        VisibleLenPrefix(a, b, m);
      }
    }
  }

  lemma LostFirm(t: Sector, size: nat)
    requires t.recs != [] && Unfinished(LastOf(t)) && Lost(t) < Lag(t)
    requires LastOf(t).off + LastOf(t).Stated() < size <= U32_LIMIT && t.End() - LastOf(t).Stated() >= Lag(t)
    ensures var c := Cut(LastOf(t), Lost(t)); RecShape(c) && Firm(c)
  {
    hide Image, Lag, Lost;
    var r, n := LastOf(t), Lost(t);
    CutShape(r, n);
    CutByte(r, n, r.Len() - n - 1);
    if n + KV_HDR == r.Stated() {
      HeaderEnds(r);
    }
  }

  /** A sector at any stage of adding a record, read afresh. */
  lemma StageFit(s: Sector, t: Sector, key: Key, value: Value, size: nat)
    requires SectorFit(s) && Stage(s, t, key, value) && SectorShape(s, size) && SectorShape(t, size)
    requires size <= U32_LIMIT
    requires TameAt(Lag(s), key, value) && Storable(key, value) && (Even(s) || FirmValue(key, value))
    ensures SectorFit(Reread(t))
  {
    hide SectorFit, RecShape, TameAt, FirmValue, Lag, Harmless;
    if t == Appended(s, key, value) {
      AppendedFit(s, key, value);
      FitRereads(t);
    } else {
      var r: Rec :| t == WithRec(s, r) && r.off == s.End() && r.status in {Unused, PreWrite}
                    && r.short == 0 && (r.written == 4 || (r.key == key && r.value == value));
      StageRec(s, r, size);
      if r.written == 4 {
        BareFit(s, r, size);
      } else {
        DraftFit(s, r, key, value, size);
      }
    }
  }

  lemma StageRec(s: Sector, r: Rec, size: nat)
    requires SectorShape(WithRec(s, r), size) && r.off == s.End() && r.status in {Unused, PreWrite} && r.short == 0
    ensures RecShape(r) && LastOf(WithRec(s, r)) == r && r.off + r.Stated() < size
    ensures r.written == 4 || Unfinished(r) || (r.written == 1 && s.recs != [] && r == Scrap(s.End()))
  {
    var t := WithRec(s, r);
    assert t.recs[|s.recs|] == r;
  }

  lemma AppendedFit(s: Sector, key: Key, value: Value)
    requires SectorFit(s) && Storable(key, value) && (Even(s) || FirmValue(key, value))
    ensures SectorFit(Appended(s, key, value))
  {
    hide RecShape, FirmValue, Lag, Harmless, SectorExact;
    AppendedExact(s, key, value);
    AppendedShape(s, key, value);
  }

  /** A record of which only the status byte is there, or nothing at all. */
  lemma BareFit(s: Sector, r: Rec, size: nat)
    requires SectorFit(s) && SectorShape(s, size) && RecShape(r) && r.off == s.End() && r.written == 4
    requires r.status in {Unused, PreWrite}
    ensures SectorFit(Reread(WithRec(s, r)))
  {
    hide RecShape, Harmless, NeverAhead, VisibleLen, LastFirm;
    var t := WithRec(s, r);
    BareSeen(r);
    if s.recs == [] {
      WithRecAhead(s, r);
      assert t.recs == [r];
    } else if r.status == PreWrite {
      ScrapFit(s);
      assert t.recs[..|t.recs| - 1] == s.recs;
    } else {
      assert t.recs[..|t.recs| - 1] == s.recs && Reread(t) == s;
    }
  }

  lemma BareSeen(r: Rec)
    requires RecShape(r) && r.written == 4
    ensures Visible(r) && r.Len() == r.Stated() && Harmless(r) && !Unfinished(r)
  {
  }

  lemma ScrapFit(s: Sector)
    requires SectorFit(s)
    ensures SectorFit(WithRec(s, Scrap(s.End()))) && Lag(WithRec(s, Scrap(s.End()))) == Lag(s) + 1
  {
    hide Image, VisibleLen, RecShape, StatusByte, Harmless;
    var r, t := Scrap(s.End()), WithRec(s, Scrap(s.End()));
    ScrapHarmless(s.End());
    ScrapImage(s.End());
    StatusByteBits(PreWrite.Index());
    VisibleLenPrefix(s.recs, t.recs, |s.recs|);
    assert SECTOR_HDR + VisibleLen(s.recs, |s.recs|) <= EndOf(s.recs, |s.recs|);
    assert VisibleLen(t.recs, |t.recs|) == VisibleLen(s.recs, |s.recs|) by { ScrapAddsNothing(s); }
    forall n | 0 <= n <= |t.recs| ensures SECTOR_HDR + VisibleLen(t.recs, n) <= EndOf(t.recs, n) {
      if n <= |s.recs| {
        VisibleLenPrefix(s.recs, t.recs, n);
      }
    }
    assert LastFirm(t);
  }

  lemma ScrapHarmless(off: nat)
    ensures RecShape(Scrap(off)) && Harmless(Scrap(off))
  {
  }

  lemma ScrapAddsNothing(s: Sector)
    ensures var t := WithRec(s, Scrap(s.End())); VisibleLen(t.recs, |t.recs|) == VisibleLen(s.recs, |s.recs|)
  {
    VisibleLenPrefix(s.recs, WithRec(s, Scrap(s.End())).recs, |s.recs|);
  }

  lemma DraftFit(s: Sector, r: Rec, key: Key, value: Value, size: nat)
    requires SectorFit(s) && RecShape(r) && r.off == s.End() && r.status in {Unused, PreWrite} && r.short == 0
    requires r.written != 4
    requires r.key == key && r.value == value && r.off + r.Stated() < size <= U32_LIMIT && TameAt(Lag(s), key, value)
    requires Unfinished(r) || r == Scrap(s.End())
    ensures SectorFit(Reread(WithRec(s, r)))
  {
    hide RecShape, SectorFit, TameAt, Lag, Cut, Lost;
    var t := WithRec(s, r);
    if r == Scrap(s.End()) {
      ScrapFit(s);
      assert LastOf(t) == r && !Unfinished(r);
    } else {
      CutFit(s, r, key, value, size);
      UnfinishedSeen(r);
      CutExact(s, r, size) by { FitParts(s); }
      assert Reread(t) == WithLast(t, Cut(r, Lost(t)));
    }
  }

  lemma FitParts(s: Sector)
    requires SectorFit(s)
    ensures SectorSettled(s) && SectorExact(s) && NeverAhead(s.recs)
  {
  }

  lemma CutFit(s: Sector, r: Rec, key: Key, value: Value, size: nat)
    requires SectorFit(s) && Unfinished(r) && r.off == s.End() && r.key == key && r.value == value
    requires r.off + r.Stated() < size <= U32_LIMIT && TameAt(Lag(s), key, value)
    ensures SectorFit(WithRec(s, Cut(r, Lost(WithRec(s, r)))))
  {
    hide RecShape, Harmless, SectorFit, SectorSettled, SectorExact, Lag, Cut, Unfinished, NeverAhead, TameAt, Lost;
    FitParts(s);
    CutExact(s, r, size);
    var n := Lost(WithRec(s, r));
    TameCut(Lag(s), r, n);
    SettledWithRec(s, Cut(r, n));
    FitOf(WithRec(s, Cut(r, n)));
  }

  lemma TameCut(lag: nat, r: Rec, n: nat)
    requires Unfinished(r) && TameAt(lag, r.key, r.value) && n <= lag && n + KV_HDR <= r.Stated()
    ensures RecShape(Cut(r, n)) && Harmless(Cut(r, n)) && Cut(r, n).written != 4
  {
    hide Harmless;
    CutShape(r, n);
  }

  lemma FitOf(s: Sector)
    requires SectorSettled(s) && SectorExact(s)
    ensures SectorFit(s)
  {
  }

  lemma SettledWithRec(s: Sector, r: Rec)
    requires SectorSettled(s) && RecShape(r) && Harmless(r) && r.written != 4
    ensures SectorSettled(WithRec(s, r))
  {
    hide RecShape, Harmless;
  }

  lemma StageRereads(a: View, v: View, sec: nat, key: Key, value: Value, size: nat)
    requires sec < |a| == |v| && v == a[sec := v[sec]] && Stage(a[sec], v[sec], key, value)
    requires Settled(a) && Exact(a) && Shaped(a, size) && Shaped(v, size) && size <= U32_LIMIT
    requires TameAt(Lag(a[sec]), key, value) && Storable(key, value) && (Even(a[sec]) || FirmValue(key, value))
    ensures Settled(RereadAll(v)) && Exact(RereadAll(v))
  {
    hide SectorSettled, SectorExact, SectorShape, Stage, Reread, TameAt, FirmValue, Lag;
    forall i | 0 <= i < |v| ensures SectorFit(Reread(v[i])) {
      assert SectorFit(a[i]);
      if i == sec {
        StageFit(a[i], v[i], key, value, size);
      } else {
        FitRereads(a[i]);
      }
    }
  }

  lemma FitRereadAll(v: View)
    requires Settled(v) && Exact(v)
    ensures RereadAll(v) == v
  {
    hide SectorSettled, SectorExact, Reread;
    forall i | 0 <= i < |v| ensures RereadAll(v)[i] == v[i] {
      assert SectorFit(v[i]);
      FitRereads(v[i]);
    }
  }

  // ----- when the traversal of a sector finds its end -----

  /**
    The free space a traversal computes for a sector is the true one exactly if the stated lengths
    lead to the end of the records, or the last record does not end in an erased byte. Otherwise the
    next record would be laid over the end of the last one.
  */
  lemma TraversalExact(mem: Memory, secs: View, size: nat, sec: nat, empty: nat, ff: nat)
    requires Faithful(mem, secs, size) && sec < |secs| && secs[sec].store == Using && |mem[sec]| == size
    requires NeverAhead(secs[sec].recs)
    requires empty == SECTOR_HDR + VisibleLen(secs[sec].recs, |secs[sec].recs|)
    requires empty <= ff <= size && (forall p :: ff <= p < size ==> mem[sec][p] == ERASED)
    requires (ff > empty ==> mem[sec][ff - 1] != ERASED)
    ensures ff == secs[sec].End() <==> SectorExact(secs[sec])
    ensures ff <= secs[sec].End()
  {
    hide VisibleLen, Holds, Chained, BareLast, SectorHeader, Image, RecShape;
    var s := secs[sec];
    assert SectorBytes(mem[sec], s) && SectorShape(s, size);
    assert empty <= EndOf(s.recs, |s.recs|);
    LastByte(mem, secs, size, sec);
  }

  lemma LastByte(mem: Memory, secs: View, size: nat, sec: nat)
    requires Faithful(mem, secs, size) && sec < |secs| && secs[sec].store == Using
    ensures SECTOR_HDR < secs[sec].End() <= |mem[sec]|
    ensures (mem[sec][secs[sec].End() - 1] != ERASED <==> LastFirm(secs[sec]))
  {
    hide Image, RecShape, StatusByte, SectorHeader, Chained;
    var s := secs[sec];
    assert SectorShape(s, size) && SectorBytes(mem[sec], s);
    var r := LastOf(s);
    assert Holds(mem[sec], r);
    RecInPlace(mem, secs, size, sec, |s.recs| - 1);
    assert mem[sec][r.off..r.End()][r.Len() - 1] == mem[sec][r.End() - 1];
  }

  /** As long as no record lost its end, what is left over are status bytes without a header. */
  lemma LeftOverBytes(s: Sector)
    requires Chained(s.recs) && s.recs != [] && forall i :: 0 <= i < |s.recs| ==> s.recs[i].short == 0
    ensures NeverAhead(s.recs) && (Even(s) <==> forall i :: 0 <= i < |s.recs| ==> Visible(s.recs[i]))
  {
    hide RecShape, VisibleLen;
    forall n | 0 <= n <= |s.recs| ensures SECTOR_HDR + VisibleLen(s.recs, n) <= EndOf(s.recs, n) {
      SumBound(s.recs, n);
    }
    if i :| 0 <= i < |s.recs| && !Visible(s.recs[i]) {
      ScrapShort(s.recs, i, |s.recs|);
    } else {
      SumOfAll(s.recs, |s.recs|);
    }
  }

  lemma {:induction false} SumBound(recs: seq<Rec>, n: nat)
    requires Chained(recs) && n <= |recs| && forall i :: 0 <= i < |recs| ==> recs[i].short == 0
    ensures SECTOR_HDR + VisibleLen(recs, n) <= EndOf(recs, n)
  {
    hide RecShape;
    if n > 1 {
      SumBound(recs, n - 1);
      assert recs[n - 2].End() <= recs[n - 1].off;
    }
  }

  lemma {:induction false} SumOfAll(recs: seq<Rec>, n: nat)
    requires Chained(recs) && 0 < n <= |recs| && forall i :: 0 <= i < |recs| ==> recs[i].short == 0 && Visible(recs[i])
    ensures SECTOR_HDR + VisibleLen(recs, n) == EndOf(recs, n)
  {
    hide RecShape;
    if n > 1 {
      SumOfAll(recs, n - 1);
      assert Adjacent(recs, n - 2);
    }
  }

  lemma {:induction false} ScrapShort(recs: seq<Rec>, i: nat, n: nat)
    requires Chained(recs) && i < n <= |recs| && !Visible(recs[i]) && forall k :: 0 <= k < |recs| ==> recs[k].short == 0
    ensures SECTOR_HDR + VisibleLen(recs, n) < EndOf(recs, n)
  {
    hide RecShape;
    if n - 1 == i {
      SumBound(recs, i);
      if i > 0 {
        assert recs[i - 1].End() <= recs[i].off;
      }
    } else {
      ScrapShort(recs, i, n - 1);
      assert recs[n - 2].End() <= recs[n - 1].off;
    }
  }

  /** A sector that is not: a good record, a left-over status byte, and a value that ends in 0xFF. */
  function Misleading(): Sector {
    Sector(Using, Clean, [Rec(SECTOR_HDR, Write, [97], [98], 26), Scrap(42), Rec(43, Write, [99], [ERASED], 26)])
  }

  lemma MisleadingShape(size: nat)
    requires size > 200
    ensures SectorShape(Misleading(), size) && SectorSettled(Misleading()) && Misleading().End() == 69
    ensures var r := Misleading().recs[2]; RecShape(r) && r.Complete() && !Visible(Misleading().recs[1])
    ensures NeverAhead(Misleading().recs) && !Even(Misleading())
  {
    hide Image, Harmless, VisibleLen, RecShape;
    var s := Misleading();
    MisleadingRecs();
    assert Adjacent(s.recs, 0) && Adjacent(s.recs, 1);
    assert Chained(s.recs);
    LeftOverBytes(s);
    assert !Visible(s.recs[1]);
  }

  lemma MisleadingRecs()
    ensures forall i :: 0 <= i < 3 ==> RecShape(Misleading().recs[i]) && Harmless(Misleading().recs[i])
    ensures Misleading().recs[0].Complete() && Misleading().recs[2].Complete()
  {
  }

  /** The flash contents of such a sector. */
  function MisleadingBytes(size: nat): (b: seq<byte>)
    requires size > 200
    ensures |b| == size
  {
    var s := Misleading();
    SectorHeader(Using, Clean) + Image(s.recs[0]) + Image(s.recs[1]) + Image(s.recs[2]) + Ones(size - 69)
  }

  lemma MisleadingHolds(size: nat)
    requires size > 200
    ensures SectorBytes(MisleadingBytes(size), Misleading())
  {
    hide Image, SectorHeader, RecShape;
    var s, b := Misleading(), MisleadingBytes(size);
    MisleadingShape(size);
    FiveParts(SectorHeader(Using, Clean), Image(s.recs[0]), Image(s.recs[1]), Image(s.recs[2]), Ones(size - 69));
    assert Holds(b, s.recs[0]) && Holds(b, s.recs[1]) && Holds(b, s.recs[2]);
  }

  lemma FiveParts(a: seq<byte>, b: seq<byte>, c: seq<byte>, d: seq<byte>, e: seq<byte>)
    ensures var w := a + b + c + d + e; var i, j, k := |a| + |b|, |a| + |b| + |c|, |a| + |b| + |c| + |d|;
            w[..|a|] == a && w[|a|..i] == b && w[i..j] == c && w[j..k] == d && w[k..] == e
  {
  }

  /**
    On these contents the traversal ends at byte 68, the last one of a live record, and the status byte
    of the record laid there destroys its value.
  */
  lemma MisleadingFails(mem: Memory, secs: View, size: nat, ff: nat)
    requires size > 200 && mem == [MisleadingBytes(size), Ones(size)] && secs == [Misleading(), ERASED_SECTOR]
    requires var empty := SECTOR_HDR + VisibleLen(secs[0].recs, |secs[0].recs|);
             empty <= ff <= size && (forall p :: ff <= p < size ==> mem[0][p] == ERASED) &&
             (ff > empty ==> mem[0][ff - 1] != ERASED)
    ensures Faithful(mem, secs, size) && Settled(secs) && ff == 68 < secs[0].End()
    ensures Holds(mem[0], secs[0].recs[2])
    ensures !Holds(Program(mem[0], ff, [StatusByte(PreWrite.Index())]), secs[0].recs[2])
  {
    hide SectorHeader, StatusByte, Image, RecShape, SectorShape, SectorSettled, VisibleLen, MisleadingBytes, Misleading;
    MisleadingShape(size);
    MisleadingHolds(size);
    ErasedBytes(size);
    assert SectorShape(ERASED_SECTOR, size) && SectorSettled(ERASED_SECTOR) by { ErasedShape(size); }
    forall i | 0 <= i < 2 ensures SectorBytes(mem[i], secs[i]) {}
    var empty := SECTOR_HDR + VisibleLen(secs[0].recs, |secs[0].recs|);
    MisleadingSum();
    TraversalExact(mem, secs, size, 0, empty, ff);
    MisleadingEnd(mem[0]);
  }

  lemma ErasedShape(size: nat)
    ensures SectorShape(ERASED_SECTOR, size) && SectorSettled(ERASED_SECTOR)
  {
  }

  lemma MisleadingSum()
    ensures SECTOR_HDR + VisibleLen(Misleading().recs, |Misleading().recs|) == 68 && Misleading().store == Using
  {
    var recs := Misleading().recs;
    assert VisibleLen(recs, 0) == 0 && VisibleLen(recs, 1) == 26 && VisibleLen(recs, 2) == 26;
  }

  lemma MisleadingEnd(b: seq<byte>)
    requires SectorBytes(b, Misleading()) && |b| > 200
    ensures !LastFirm(Misleading()) && Holds(b, Misleading().recs[2])
    ensures !Holds(Program(b, 68, [StatusByte(PreWrite.Index())]), Misleading().recs[2])
  {
    hide SectorHeader, Image, RecShape, StatusByte;
    var r := Misleading().recs[2];
    assert Holds(b, r);
    MisleadingShape(|b|);
    HeldEnd(b);
    assert b[r.off..r.End()][r.Len() - 1] == b[68];
    var c := Program(b, 68, [StatusByte(PreWrite.Index())]);
    StatusByteBits(PreWrite.Index());
    ProgramErased(b, 68, [StatusByte(PreWrite.Index())]);
    if Holds(c, r) {
      HeldEnd(c);
    }
  }

  lemma HeldEnd(b: seq<byte>)
    requires Holds(b, Misleading().recs[2]) && |b| > 200
    ensures b[68] == ERASED
  {
    hide Image;
    var r := Misleading().recs[2];
    BodyReads(b, r);
    assert b[68] == b[68..69][0];
  }
}
