/**
  The bytes of a key-value sector, and what each single flash write does to them: every write
  the store makes turns the bytes of one sector view into the bytes of the next.
*/
module KvImage {
  import opened Bytes
  import opened Status
  import opened KvLayout

  /** The magic word `KV00` at byte `q`. */
  predicate MagicAt(b: seq<byte>, q: nat) {
    q + 4 <= |b| && b[q] == 0x4B && b[q + 1] == 0x56 && b[q + 2] == 0x30 && b[q + 3] == 0x30
  }

  const MAGIC_BYTES: seq<byte> := [0x4B, 0x56, 0x30, 0x30]

  lemma MagicWord()
    ensures U32(KV_MAGIC) == MAGIC_BYTES && FromU32(MAGIC_BYTES) == KV_MAGIC
  {
  }

  lemma MagicSlice(b: seq<byte>, q: nat)
    requires q + 4 <= |b|
    ensures b[q..q + 4] == MAGIC_BYTES <==> MagicAt(b, q)
  {
    var w := b[q..q + 4];
    assert w[0] == b[q] && w[1] == b[q + 1] && w[2] == b[q + 2] && w[3] == b[q + 3];
  }

  lemma MagicIsWord(b: seq<byte>, q: nat)
    requires q + 4 <= |b|
    ensures FromU32(b[q..q + 4]) == KV_MAGIC <==> MagicAt(b, q)
    ensures b[q..q + 4] == U32(KV_MAGIC) <==> MagicAt(b, q)
  {
    hide U32, FromU32, MagicAt;
    MagicWord();
    MagicSlice(b, q);
    if FromU32(b[q..q + 4]) == KV_MAGIC {
      FromU32Injective(b[q..q + 4], MAGIC_BYTES);
    }
  }

  /** No magic word inside the record other than its own. */
  ghost predicate Quiet(r: Rec)
    requires RecShape(r)
  {
    forall q :: 5 <= q ==> !MagicAt(Image(r), q)
  }

  /** The sector header as `format_sector` writes it; `combined` and `reserved` stay erased. */
  function SectorHeader(store: Store, dirt: Dirt): (h: seq<byte>)
    ensures |h| == SECTOR_HDR
  {
    [StatusByte(store.Index()), StatusByte(dirt.Index()), ERASED, ERASED] + U32(SECTOR_MAGIC) + Ones(8)
  }

  ghost predicate Adjacent(recs: seq<Rec>, i: nat) {
    i + 1 < |recs| && recs[i + 1].off == recs[i].End()
  }

  /** Records follow each other without gap or overlap, from just behind the sector header. */
  ghost predicate Chained(recs: seq<Rec>) {
    && (recs != [] ==> recs[0].off == SECTOR_HDR && recs[0].written != 1)
    && (forall i :: 0 <= i < |recs| ==> RecShape(recs[i]) && recs[i].off >= SECTOR_HDR)
    && (forall i, j :: 0 <= i < j < |recs| ==> recs[i].End() <= recs[j].off)
    && (forall i {:trigger Adjacent(recs, i)} :: 0 <= i < |recs| - 1 ==> Adjacent(recs, i))
  }

  /** Behind the first record, only the last one can be without a header, while it is being started. */
  ghost predicate BareLast(recs: seq<Rec>) {
    forall i :: 0 < i < |recs| && recs[i].written == 4 ==> i == |recs| - 1 && recs[i].status in {Unused, PreWrite}
  }

  ghost predicate NoBare(recs: seq<Rec>) {
    forall i :: 0 < i < |recs| ==> recs[i].written != 4
  }

  /**
    The shape of a sector between any two flash writes. No sector is ever FULL: a record is only
    allocated where more than REMAIN_THRESHOLD bytes stay free behind it.
  */
  ghost predicate SectorShape(s: Sector, size: nat) {
    && Chained(s.recs) && BareLast(s.recs)
    && match s.store
       case StoreUnused => s.recs == [] && s.dirt == DirtUnused
       case Empty => s.recs == [] && s.dirt == Clean
       case Using => s.recs != [] && s.dirt != DirtUnused && s.End() + REMAIN_THRESHOLD < size && Within(s.recs, size)
       case Full => false
  }

  /** The lengths stated in the headers stay inside the sector. */
  ghost predicate Within(recs: seq<Rec>, size: nat) {
    forall i :: 0 <= i < |recs| ==> recs[i].off + recs[i].Stated() + REMAIN_THRESHOLD < size
  }

  ghost predicate Holds(b: seq<byte>, r: Rec) {
    RecShape(r) && r.End() <= |b| && b[r.off..r.End()] == Image(r)
  }

  /** The check every reader makes of a sector header. */
  predicate SoundHeader(b: seq<byte>)
    requires |b| >= SECTOR_HDR
  {
    FromU32(b[4..8]) == SECTOR_MAGIC && FromU32(b[8..12]) in {UNUSED_WORD, 0}
  }

  /** The same in bytes: the magic word, and a `combined` that is erased or zero. */
  predicate KnownHeader(b: seq<byte>) {
    && |b| >= 16 && b[4] == 0x46 && b[5] == 0x44 && b[6] == 0x42 && b[7] == 0x30
    && ((b[8] == 0xFF && b[9] == 0xFF && b[10] == 0xFF && b[11] == 0xFF)
        || (b[8] == 0 && b[9] == 0 && b[10] == 0 && b[11] == 0))
  }

  lemma SoundHeaderBytes(b: seq<byte>)
    requires |b| >= SECTOR_HDR
    ensures SoundHeader(b) <==> KnownHeader(b)
  {
    hide FromU32, U32;
    HeaderWords();
    assert b[4..8] == [b[4], b[5], b[6], b[7]] && b[8..12] == [b[8], b[9], b[10], b[11]];
    if FromU32(b[4..8]) == SECTOR_MAGIC {
      FromU32Injective(b[4..8], [0x46, 0x44, 0x42, 0x30]);
    }
    if FromU32(b[8..12]) == UNUSED_WORD {
      FromU32Injective(b[8..12], [0xFF, 0xFF, 0xFF, 0xFF]);
    }
    if FromU32(b[8..12]) == 0 {
      FromU32Injective(b[8..12], [0, 0, 0, 0]);
    }
  }

  lemma HeaderWords()
    ensures U32(SECTOR_MAGIC) == [0x46, 0x44, 0x42, 0x30] && FromU32([0x46, 0x44, 0x42, 0x30]) == SECTOR_MAGIC
    ensures FromU32([0xFF, 0xFF, 0xFF, 0xFF]) == UNUSED_WORD && FromU32([0, 0, 0, 0]) == 0
  {
  }

  /** A sector of which only this is known: its header fails the check. */
  predicate Blank(s: Sector) {
    s.store == StoreUnused && s.recs == []
  }

  ghost predicate SectorBytes(b: seq<byte>, s: Sector) {
    && |b| >= SECTOR_HDR
    && if Blank(s) then !SoundHeader(b)
       else && b[..SECTOR_HDR] == SectorHeader(s.store, s.dirt)
            && (forall i :: 0 <= i < |s.recs| ==> Holds(b, s.recs[i]))
            && (forall p :: s.End() <= p < |b| ==> b[p] == ERASED)
  }

  lemma HoldsFrame(b: seq<byte>, c: seq<byte>, r: Rec)
    requires Holds(b, r) && |c| == |b|
    requires forall p :: r.off <= p < r.End() ==> c[p] == b[p]
    ensures Holds(c, r)
  {
    hide RecShape, Image;
    assert c[r.off..r.End()] == b[r.off..r.End()];
  }

  lemma ChainedEnds(recs: seq<Rec>, i: nat)
    requires Chained(recs) && i < |recs|
    ensures SECTOR_HDR <= recs[i].off < recs[i].End() <= recs[|recs| - 1].End()
  {
  }

  // ----- changing the status of a record -----

  function WithStatus(r: Rec, st: KvStatus): Rec {
    r.(status := st)
  }

  function SetRecStatus(s: Sector, i: nat, st: KvStatus): Sector
    requires i < |s.recs|
  {
    s.(recs := s.recs[i := WithStatus(s.recs[i], st)])
  }

  lemma StatusImage(r: Rec, st: KvStatus)
    requires RecShape(r) && RecShape(WithStatus(r, st))
    ensures Image(r)[0] == StatusByte(r.status.Index())
    ensures Image(WithStatus(r, st)) == [StatusByte(st.Index())] + Image(r)[1..]
  {
    hide RecBytes, StatusByte;
  }

  lemma ProgramFirst(b: seq<byte>, lo: nat, hi: nat, v: byte)
    requires lo < hi <= |b|
    ensures Program(b, lo, [v])[lo..hi] == [And(b[lo], v)] + b[lo..hi][1..]
  {
  }

  /** Going up the ladder is one AND-write on the first byte of the record. */
  lemma StatusWritten(b: seq<byte>, r: Rec, st: KvStatus)
    requires Holds(b, r) && RecShape(WithStatus(r, st)) && r.status.Index() <= st.Index()
    ensures Holds(Program(b, r.off, [StatusByte(st.Index())]), WithStatus(r, st))
  {
    hide StatusByte, Image, RecShape, Program, And;
    StatusImage(r, st);
    ProgramFirst(b, r.off, r.End(), StatusByte(st.Index()));
    StatusByteProgrammed(r.status.Index(), st.Index());
    assert b[r.off..r.End()][0] == b[r.off];
  }

  lemma SetRecStatusShape(s: Sector, size: nat, i: nat, st: KvStatus)
    requires SectorShape(s, size) && i < |s.recs| && RecShape(WithStatus(s.recs[i], st))
    requires i == 0 || s.recs[i].written != 4 || st == PreWrite
    ensures SectorShape(SetRecStatus(s, i, st), size) && SetRecStatus(s, i, st).End() == s.End()
  {
    hide RecShape, Chained;
    ChainedRestated(s.recs, i, st);
  }

  lemma ChainedRestated(recs: seq<Rec>, i: nat, st: KvStatus)
    requires Chained(recs) && i < |recs| && RecShape(WithStatus(recs[i], st))
    ensures Chained(recs[i := WithStatus(recs[i], st)])
  {
    hide RecShape;
    var n := recs[i := WithStatus(recs[i], st)];
    forall k | 0 <= k < |n| - 1 ensures Adjacent(n, k) {
      assert Adjacent(recs, k);
    }
  }

  /** A change within one record, or from the last one on, leaves the other records. */
  lemma OthersHold(b: seq<byte>, c: seq<byte>, recs: seq<Rec>, k: nat, lo: nat, hi: nat)
    requires Chained(recs) && k < |recs| && |c| == |b| && recs[k].off <= lo && (hi <= recs[k].End() || k == |recs| - 1)
    requires forall i :: 0 <= i < |recs| ==> Holds(b, recs[i])
    requires forall p :: 0 <= p < |b| && !(lo <= p < hi) ==> c[p] == b[p]
    ensures forall i :: 0 <= i < |recs| && i != k ==> Holds(c, recs[i])
  {
    hide RecShape, Image;
    forall i | 0 <= i < |recs| && i != k ensures Holds(c, recs[i]) {
      OthersApart(recs, k, i);
      HoldsFrame(b, c, recs[i]);
    }
  }

  lemma SetRecStatusBytes(b: seq<byte>, s: Sector, i: nat, st: KvStatus)
    requires SectorShape(s, |b|) && SectorBytes(b, s) && i < |s.recs|
    requires RecShape(WithStatus(s.recs[i], st)) && s.recs[i].status.Index() <= st.Index()
    requires i == 0 || s.recs[i].written != 4 || st == PreWrite
    ensures SectorBytes(Program(b, s.recs[i].off, [StatusByte(st.Index())]), SetRecStatus(s, i, st))
  {
    hide RecShape, Image, Holds, StatusByte, SectorHeader, Chained, BareLast;
    ChainedEnds(s.recs, i);
    var c, t := Program(b, s.recs[i].off, [StatusByte(st.Index())]), SetRecStatus(s, i, st);
    SetRecStatusShape(s, |b|, i, st);
    StatusWritten(b, s.recs[i], st);
    OthersHold(b, c, s.recs, i, s.recs[i].off, s.recs[i].off + 1);
    assert c[..SECTOR_HDR] == b[..SECTOR_HDR];
  }

  lemma OthersApart(recs: seq<Rec>, i: nat, k: nat)
    requires Chained(recs) && i < |recs| && k < |recs| && i != k
    ensures recs[i].End() <= recs[k].off || recs[k].End() <= recs[i].off
  {
  }

  // ----- starting a record on erased bytes, and filling it -----

  function Bare(off: nat, st: KvStatus): Rec {
    Rec(off, st, [], [], 4)
  }

  /** Erased bytes read as a bare record with no status: nothing has to be written for it. */
  function AppendBare(s: Sector): Sector {
    s.(recs := s.recs + [Bare(s.End(), Unused)])
  }

  lemma ChainedAppend(recs: seq<Rec>, r: Rec)
    requires Chained(recs) && RecShape(r) && (recs == [] ==> r.written != 1)
    requires r.off == if recs == [] then SECTOR_HDR else recs[|recs| - 1].End()
    ensures Chained(recs + [r])
  {
    var n := recs + [r];
    forall i, j | 0 <= i < j < |n| ensures n[i].End() <= n[j].off {
      ChainedEnds(recs, i);
    }
    forall i | 0 <= i < |n| - 1 ensures Adjacent(n, i) {
      if i < |recs| - 1 {
        assert Adjacent(recs, i);
      }
    }
  }

  lemma ImageOfErasedBare(off: nat)
    ensures Image(Bare(off, Unused)) == Ones(KV_HDR)
  {
    ImageOfBare(Bare(off, Unused));
    var b := Image(Bare(off, Unused));
    StatusByteBits(0);
    assert forall p :: 1 <= p < KV_HDR ==> b[p] == b[1..][p - 1] == ERASED;
  }

  lemma AppendBareBytes(b: seq<byte>, s: Sector)
    requires Chained(s.recs) && SectorBytes(b, s) && s.store != StoreUnused && s.End() + KV_HDR <= |b|
    ensures Chained(AppendBare(s).recs) && SectorBytes(b, AppendBare(s)) && AppendBare(s).End() == s.End() + KV_HDR
  {
    hide Image, SectorHeader;
    var r := Bare(s.End(), Unused);
    ChainedAppend(s.recs, r);
    ImageOfErasedBare(r.off);
    assert b[r.off..r.End()] == Ones(KV_HDR);
  }

  /** The last record, replaced by a later stage of itself. */
  function WithLast(s: Sector, r: Rec): Sector
    requires s.recs != []
  {
    s.(recs := s.recs[|s.recs| - 1 := r])
  }

  /** `n` continues `r`: the same place and status, with more of its bytes written. */
  ghost predicate Continues(r: Rec, n: Rec) {
    && RecShape(r) && RecShape(n) && n.off == r.off && n.status == r.status && r.short == 0 && n.short == 0
    && KV_HDR <= n.written && 4 <= r.written <= n.written
    && (r.written == 4 || (r.key == n.key && r.value == n.value))
  }

  lemma WithLastChained(recs: seq<Rec>, n: Rec)
    requires Chained(recs) && recs != [] && RecShape(n) && n.off == recs[|recs| - 1].off && n.written != 1
    ensures Chained(recs[|recs| - 1 := n])
  {
    var m := recs[|recs| - 1 := n];
    forall i | 0 <= i < |m| - 1 ensures Adjacent(m, i) {
      assert Adjacent(recs, i);
    }
  }

  /** The bytes that take record `r` to its later stage `n`. */
  function NextBytes(r: Rec, n: Rec): (d: seq<byte>)
    requires RecShape(n) && r.written <= n.written
    ensures |d| == n.written - r.written
  {
    RecBytes(n.key, n.value)[r.written..n.written]
  }

  lemma ContinuesBounds(r: Rec, n: Rec)
    requires Continues(r, n)
    ensures n.off == r.off && 4 <= r.written <= n.written <= n.Len() && r.Len() <= n.Len()
    ensures |NextBytes(r, n)| == n.written - r.written
  {
  }

  lemma BareHead(n: Rec)
    requires RecShape(n) && n.written >= 4
    ensures Image(n)[..4] == [StatusByte(n.status.Index())] + Ones(3)
  {
    hide StatusByte, U32, CrcHead, RecCrc;
    HeaderParts(n.key, n.value);
    var h := HeaderBytes(n.key, n.value);
    assert forall p :: 1 <= p < 4 ==> Image(n)[p] == h[..4][p];
  }

  /** What is already on flash of `r` is the start of `n` too. */
  lemma StagePrefix(r: Rec, n: Rec)
    requires Continues(r, n)
    ensures Image(r)[..r.written] == Image(n)[..r.written]
  {
    hide RecBytes, StatusByte, Image;
    ContinuesBounds(r, n);
    if r.written == 4 {
      BareHead(r);
      BareHead(n);
    } else {
      forall p | 0 <= p < r.written ensures Image(r)[p] == Image(n)[p] {
        ImageAt(r, p);
        ImageAt(n, p);
      }
    }
  }

  lemma NextByte(r: Rec, n: Rec, p: nat)
    requires Continues(r, n) && r.written <= p < n.written
    ensures p - r.written < |NextBytes(r, n)| && p < Size(n.key, n.value)
    ensures NextBytes(r, n)[p - r.written] == RecBytes(n.key, n.value)[p]
  {
    hide RecBytes;
  }

  /** The bytes of a later stage, one by one: the old ones up to `r.written`, the new ones, erased ones. */
  lemma StageByte(b: seq<byte>, c: seq<byte>, r: Rec, n: Rec, p: nat)
    requires Holds(b, r) && Continues(r, n) && n.End() <= |b| == |c| && p < n.Len()
    requires forall q :: r.off + r.written <= q < n.End() ==> b[q] == ERASED
    requires c == b[..r.off + r.written] + NextBytes(r, n) + b[r.off + n.written..]
    ensures c[r.off + p] == Image(n)[p]
  {
    hide RecBytes, StatusByte, Image, RecShape;
    ContinuesBounds(r, n);
    ImageAt(n, p);
    if p < r.written {
      StagePrefix(r, n);
      assert b[r.off..r.End()][p] == Image(r)[p];
      assert Image(r)[..r.written][p] == Image(n)[..r.written][p];
    } else if p < n.written {
      NextByte(r, n, p);
    }
  }

  lemma StageWritten(b: seq<byte>, r: Rec, n: Rec)
    requires Holds(b, r) && Continues(r, n) && n.End() <= |b|
    requires forall p :: r.off + r.written <= p < n.End() ==> b[p] == ERASED
    ensures r.off + n.written <= |b| && Holds(Program(b, r.off + r.written, NextBytes(r, n)), n)
  {
    hide RecBytes, StatusByte, Image, RecShape, NextBytes;
    ContinuesBounds(r, n);
    var d := NextBytes(r, n);
    var c := Program(b, r.off + r.written, d);
    ProgramErased(b, r.off + r.written, d);
    forall p | 0 <= p < n.Len() ensures c[r.off + p] == Image(n)[p] {
      StageByte(b, c, r, n, p);
    }
    assert c[n.off..n.End()] == Image(n);
  }

  lemma StageTailErased(b: seq<byte>, s: Sector, n: Rec, p: nat)
    requires SectorBytes(b, s) && s.recs != []
    requires var r := s.recs[|s.recs| - 1]; Continues(r, n) && r.off + r.written <= p < n.End() <= |b|
    ensures b[p] == ERASED
  {
    hide RecBytes, StatusByte, Image, RecShape, SectorHeader;
    var r := s.recs[|s.recs| - 1];
    if p < r.End() {
      assert Holds(b, r);
      assert b[p] == b[r.off..r.End()][p - r.off];
      ImageAt(r, p - r.off);
    }
  }

  lemma WithLastBytes(b: seq<byte>, s: Sector, n: Rec)
    requires Chained(s.recs) && SectorBytes(b, s) && s.recs != []
    requires var r := s.recs[|s.recs| - 1]; Continues(r, n) && n.End() <= |b|
    ensures var r := s.recs[|s.recs| - 1]; SectorBytes(Program(b, r.off + r.written, NextBytes(r, n)), WithLast(s, n))
  {
    hide RecBytes, Image, StatusByte, SectorHeader, RecShape, Holds, Chained, NextBytes;
    var last := |s.recs| - 1;
    var r := s.recs[last];
    ContinuesBounds(r, n);
    var c, t := Program(b, r.off + r.written, NextBytes(r, n)), WithLast(s, n);
    forall p | r.off + r.written <= p < n.End() ensures b[p] == ERASED {
      StageTailErased(b, s, n, p);
    }
    StageWritten(b, r, n);
    ChainedEnds(s.recs, last);
    OthersHold(b, c, s.recs, last, r.off + r.written, n.End());
    assert c[..SECTOR_HDR] == b[..SECTOR_HDR];
    assert t.End() == n.End() >= s.End();
    assert forall p :: t.End() <= p < |b| ==> c[p] == b[p];
  }

  // ----- sector header writes -----

  lemma HeaderFields(store: Store, dirt: Dirt)
    ensures var h := SectorHeader(store, dirt);
            && h[0] == StatusByte(store.Index()) && h[1] == StatusByte(dirt.Index())
            && h[4..8] == U32(SECTOR_MAGIC) && h[8..12] == Ones(4)
  {
  }

  /** EMPTY to USING; the erased first slot now reads as a bare record. */
  function Opened(s: Sector): Sector {
    s.(store := Using, recs := [Bare(SECTOR_HDR, Unused)])
  }

  lemma StoreWritten(b: seq<byte>, s: Sector, store: Store)
    requires SectorBytes(b, s) && Chained(s.recs) && s.store != StoreUnused && s.store.Index() <= store.Index()
    ensures SectorBytes(Program(b, 0, [StatusByte(store.Index())]), s.(store := store))
  {
    hide StatusByte, SectorHeader;
    var c := Program(b, 0, [StatusByte(store.Index())]);
    StatusByteProgrammed(s.store.Index(), store.Index());
    HeaderFields(s.store, s.dirt);
    HeaderChanged(b, c, s, s.(store := store));
  }

  lemma DirtWritten(b: seq<byte>, s: Sector, dirt: Dirt)
    requires SectorBytes(b, s) && Chained(s.recs) && s.store != StoreUnused && s.dirt.Index() <= dirt.Index()
    ensures SectorBytes(Program(b, DIRTY_OFFSET, [StatusByte(dirt.Index())]), s.(dirt := dirt))
  {
    hide StatusByte, SectorHeader;
    var c := Program(b, DIRTY_OFFSET, [StatusByte(dirt.Index())]);
    StatusByteProgrammed(s.dirt.Index(), dirt.Index());
    HeaderFields(s.store, s.dirt);
    HeaderChanged(b, c, s, s.(dirt := dirt));
  }

  lemma HeaderChanged(b: seq<byte>, c: seq<byte>, s: Sector, t: Sector)
    requires SectorBytes(b, s) && Chained(s.recs) && s.store != StoreUnused && t.store != StoreUnused
    requires t.recs == s.recs
    requires |c| == |b| && forall p :: 2 <= p < |b| ==> c[p] == b[p]
    requires b[0] == StatusByte(s.store.Index()) && b[1] == StatusByte(s.dirt.Index()) ==>
               c[0] == StatusByte(t.store.Index()) && c[1] == StatusByte(t.dirt.Index())
    ensures SectorBytes(c, t)
  {
    hide StatusByte, Image, RecShape;
    var g, h := SectorHeader(s.store, s.dirt), SectorHeader(t.store, t.dirt);
    assert forall p :: 0 <= p < SECTOR_HDR ==> b[p] == g[p];
    assert c[..SECTOR_HDR] == h;
    forall k | 0 <= k < |t.recs| ensures Holds(c, t.recs[k]) {
      HoldsFrame(b, c, s.recs[k]);
    }
  }

  const ERASED_SECTOR: Sector := Sector(StoreUnused, DirtUnused, [])
  const EMPTY_SECTOR: Sector := Sector(Empty, Clean, [])

  lemma ErasedBytes(size: nat)
    requires size >= SECTOR_HDR
    ensures SectorBytes(Ones(size), ERASED_SECTOR)
  {
    assert Ones(size)[..SECTOR_HDR] == Ones(SECTOR_HDR);
  }

  lemma FormattedBytes(size: nat)
    requires size >= SECTOR_HDR
    ensures SectorBytes(Program(Ones(size), 0, SectorHeader(Empty, Clean)), EMPTY_SECTOR)
  {
    ProgramErased(Ones(size), 0, SectorHeader(Empty, Clean));
  }

  // ----- sectors with one record or none -----

  function OneBytes(dirt: Dirt, r: Rec, size: nat): (b: seq<byte>)
    requires RecShape(r) && r.off == SECTOR_HDR && r.End() < size
    ensures |b| == size
  {
    SectorHeader(Using, dirt) + Image(r) + Ones(size - r.End())
  }

  lemma OneHolds(dirt: Dirt, r: Rec, size: nat)
    requires RecShape(r) && r.off == SECTOR_HDR && r.End() < size
    ensures SectorBytes(OneBytes(dirt, r, size), Sector(Using, dirt, [r]))
  {
    hide Image, SectorHeader, RecShape;
    var b := OneBytes(dirt, r, size);
    assert b[..SECTOR_HDR] == SectorHeader(Using, dirt) && b[r.off..r.End()] == Image(r);
    assert forall p :: r.End() <= p < |b| ==> b[p] == Ones(size - r.End())[p - r.End()];
  }

  function EmptyBytes(size: nat): (b: seq<byte>)
    requires SECTOR_HDR <= size
    ensures |b| == size
  {
    SectorHeader(Empty, Clean) + Ones(size - SECTOR_HDR)
  }

  lemma EmptyHolds(size: nat)
    requires SECTOR_HDR <= size
    ensures SectorBytes(EmptyBytes(size), EMPTY_SECTOR)
  {
    hide SectorHeader;
    var b := EmptyBytes(size);
    assert b[..SECTOR_HDR] == SectorHeader(Empty, Clean);
    assert forall p :: SECTOR_HDR <= p < |b| ==> b[p] == Ones(size - SECTOR_HDR)[p - SECTOR_HDR];
  }

  lemma OneShape(dirt: Dirt, r: Rec, size: nat)
    requires RecShape(r) && r.off == SECTOR_HDR && r.short == 0 && r.written >= KV_HDR && dirt != DirtUnused
    requires r.End() + REMAIN_THRESHOLD < size
    ensures SectorShape(Sector(Using, dirt, [r]), size)
  {
  }
}
