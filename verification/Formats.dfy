/**
  The formats on flash, byte by byte: what the names of the layout stand for, on contents written out in
  full.
*/
module Formats {
  import opened Bytes
  import opened Status
  import opened NorFlash
  import opened KvLayout
  import opened KvImage
  import opened KvWalk
  import opened KvView
  import opened KvModel
  import opened KvRest
  import opened KvRoom
  import opened KvCrash
  import opened KvRestart
  import opened KvRecovery
  import opened KvSpare
  import opened KvPower
  import opened NameCache
  import opened Kvdb
  import opened KvRun
  import opened TsLayout
  import KvLog
  import Crc32

  // ----- checksums -----

  lemma FirstDigits()
    ensures Crc32.Feed(0xFFFFFFFF, 49) == 0x7C231048
    ensures Crc32.Feed(0x7C231048, 50) == 0xB0ACBB32
    ensures Crc32.Feed(0xB0ACBB32, 51) == 0x77B79C2D
  {
  }

  lemma MiddleDigits()
    ensures Crc32.Feed(0x77B79C2D, 52) == 0x641C1F5C
    ensures Crc32.Feed(0x641C1F5C, 53) == 0x340AC5E3
    ensures Crc32.Feed(0x340AC5E3, 54) == 0xF68D2C9E
  {
  }

  lemma LastDigits()
    ensures Crc32.Feed(0xF68D2C9E, 55) == 0xAFFC9660
    ensures Crc32.Feed(0xAFFC9660, 56) == 0x651F2550
    ensures Crc32.Feed(0x651F2550, 57) == 0x340BC6D9
    ensures Crc32.Flip(0) == 0xFFFFFFFF && Crc32.Flip(0x340BC6D9) == 0xCBF43926
  {
  }

  /** The check value of CRC-32, that of the digits 1 to 9. */
  lemma CheckValue()
    ensures Crc32.Crc([49, 50, 51, 52, 53, 54, 55, 56, 57]) == 0xCBF43926
  {
    hide Crc32.Feed, Crc32.Flip;
    FirstDigits();
    MiddleDigits();
    LastDigits();
    var s: seq<byte> := [49, 50, 51, 52, 53, 54, 55, 56, 57];
    Crc32.FoldNext(Crc32.Feed, 0xFFFFFFFF, s, 0);
    Crc32.FoldNext(Crc32.Feed, 0xFFFFFFFF, s, 1);
    Crc32.FoldNext(Crc32.Feed, 0xFFFFFFFF, s, 2);
    Crc32.FoldNext(Crc32.Feed, 0xFFFFFFFF, s, 3);
    Crc32.FoldNext(Crc32.Feed, 0xFFFFFFFF, s, 4);
    Crc32.FoldNext(Crc32.Feed, 0xFFFFFFFF, s, 5);
    Crc32.FoldNext(Crc32.Feed, 0xFFFFFFFF, s, 6);
    Crc32.FoldNext(Crc32.Feed, 0xFFFFFFFF, s, 7);
    Crc32.FoldNext(Crc32.Feed, 0xFFFFFFFF, s, 8);
    assert s[..9] == s && s[..0] == [];
  }

  // ----- key-value sectors -----

  /** A status byte: each status has one more leading bit cleared. */
  lemma StatusTable()
    ensures StatusByte(0) == 0xFF && StatusByte(1) == 0x7F && StatusByte(2) == 0x3F && StatusByte(3) == 0x1F
    ensures StatusByte(4) == 0x0F && StatusByte(5) == 0x07
  {
    StatusByteBits(0);
    StatusByteBits(1);
    StatusByteBits(2);
    StatusByteBits(3);
    StatusByteBits(4);
    StatusByteBits(5);
  }

  function StoreByte(s: Store): byte {
    match s
    case StoreUnused => 0xFF
    case Empty => 0x7F
    case Using => 0x3F
    case Full => 0x1F
  }

  function DirtByte(d: Dirt): byte {
    match d
    case DirtUnused => 0xFF
    case Clean => 0x7F
    case Dirty => 0x3F
    case Gc => 0x1F
  }

  function RecByte(s: KvStatus): byte {
    match s
    case Unused => 0xFF
    case PreWrite => 0x7F
    case Write => 0x3F
    case PreDelete => 0x1F
    case Deleted => 0x0F
    case ErrHdr => 0x07
  }

  lemma SectorHeaderBytes(s: Store, d: Dirt)
    ensures SectorHeader(s, d)
         == [StoreByte(s), DirtByte(d), 0xFF, 0xFF, 0x46, 0x44, 0x42, 0x30, 0xFF, 0xFF, 0xFF, 0xFF, 0xFF, 0xFF, 0xFF,
             0xFF]
  {
    hide StatusByte, U32, FromU32;
    StatusTable();
    HeaderWords();
  }

  /** Every field of a record, lowest byte first. */
  lemma RecordBytes(r: Rec)
    requires RecShape(r) && r.Complete()
    ensures Image(r) == [RecByte(r.status), 0xFF, 0xFF, 0xFF, 0x4B, 0x56, 0x30, 0x30]
                        + U32(24 + |r.key| + |r.value|)
                        + U32(Crc32.Crc([|r.key| as byte, 0xFF, 0xFF, 0xFF] + U32(|r.value|) + r.key + r.value) as nat)
                        + [|r.key| as byte, 0xFF, 0xFF, 0xFF] + U32(|r.value|) + r.key + r.value
  {
    hide StatusByte, U32, FromU32, Crc32.Crc;
    StatusTable();
    MagicWord();
    assert StatusByte(r.status.Index()) == RecByte(r.status);
    var head := [|r.key| as byte, 0xFF, 0xFF, 0xFF] + U32(|r.value|);
    assert CrcHead(r.key, r.value) == head;
    var fields := MAGIC_BYTES + U32(24 + |r.key| + |r.value|) + U32(RecCrc(r.key, r.value)) + head;
    assert RecBytes(r.key, r.value) == Ones(4) + fields + r.key + r.value;
    assert RecBytes(r.key, r.value)[1..] == [0xFF, 0xFF, 0xFF] + fields + r.key + r.value;
    assert Image(r) == [RecByte(r.status)] + RecBytes(r.key, r.value)[1..];
  }

  lemma WordBytes(n: nat)
    requires n < U32_LIMIT
    ensures var b := U32(n);
            b[0] as nat + 0x100 * b[1] as nat + 0x1_0000 * b[2] as nat + 0x100_0000 * b[3] as nat == n
  {
  }

  /** The value 3 stored for the key `y`. */
  const STORED: Rec := Rec(16, Write, [121], [3], 26)

  const USING_HEADER: seq<byte> :=
    [0x3F, 0x7F, 0xFF, 0xFF, 0x46, 0x44, 0x42, 0x30, 0xFF, 0xFF, 0xFF, 0xFF, 0xFF, 0xFF, 0xFF, 0xFF]
  const EMPTY_HEADER: seq<byte> :=
    [0x7F, 0x7F, 0xFF, 0xFF, 0x46, 0x44, 0x42, 0x30, 0xFF, 0xFF, 0xFF, 0xFF, 0xFF, 0xFF, 0xFF, 0xFF]
  const STORED_BYTES: seq<byte> :=
    [0x3F, 0xFF, 0xFF, 0xFF, 0x4B, 0x56, 0x30, 0x30, 26, 0, 0, 0, 0x75, 0x03, 0xD2, 0x5D,
     1, 0xFF, 0xFF, 0xFF, 1, 0, 0, 0, 121, 3]

  lemma StoredBytes()
    ensures RecShape(STORED)
    ensures Image(STORED) == STORED_BYTES
  {
    hide StatusByte, FromU32, U32, Crc32.Crc, Image;
    assert RecShape(STORED) && STORED.Complete();
    RecordBytes(STORED);
    StoredWords();
  }

  lemma StoredWords()
    ensures U32(26) == [26, 0, 0, 0] && U32(1) == [1, 0, 0, 0] && U32(0x5DD20375) == [0x75, 0x03, 0xD2, 0x5D]
    ensures Crc32.Crc([1, 0xFF, 0xFF, 0xFF] + U32(1) + [121] + [3]) as nat == 0x5DD20375
  {
    hide Crc32.Crc;
    NewValueCrc();
    assert CrcHead([121], [3]) + [121] + [3] == [1, 0xFF, 0xFF, 0xFF] + U32(1) + [121] + [3];
  }

  /** What a reader leaves of a record without a header: the error status. */
  lemma MarkedBytes(r: Rec)
    requires RecShape(r) && r.written == 4
    ensures RecShape(Marked(r)) && Image(Marked(r))[0] == 0x07
    ensures forall p :: 1 <= p < 24 ==> Image(Marked(r))[p] == 0xFF
  {
    hide StatusByte, RecBytes;
    StatusTable();
    ImageOfBare(Marked(r));
  }

  // ----- a device in use -----

  /** Two sectors as the store has written them, the first with one value. */
  function Written(size: nat): (m: Memory)
    requires size > 200
    ensures |m| == 2 && |m[0]| == |m[1]| == size
  {
    [USING_HEADER + STORED_BYTES + Ones(size - 42), EMPTY_HEADER + Ones(size - 16)]
  }

  function InUse(): (v: View)
    ensures |v| == 2
  {
    [Sector(Using, Clean, [STORED]), EMPTY_SECTOR]
  }

  lemma StoredParts()
    ensures RecShape(STORED) && Harmless(STORED) && STORED.off == SECTOR_HDR && STORED.End() == 42 && STORED.short == 0
    ensures STORED.Len() == STORED.Stated() && STORED.written >= KV_HDR
  {
  }

  lemma UsingBytes(size: nat)
    requires 200 < size && RecShape(STORED) && STORED.off == SECTOR_HDR && STORED.End() == 42
    ensures USING_HEADER + STORED_BYTES + Ones(size - 42) == OneBytes(Clean, STORED, size)
  {
    hide Image, SectorHeader, RecShape;
    StoredBytes();
    SectorHeaderBytes(Using, Clean);
  }

  lemma WrittenBytes(size: nat)
    requires 200 < size < U32_LIMIT
    ensures Faithful(Written(size), InUse(), size)
  {
    hide SectorBytes, OneBytes, Image, SectorHeader, RecShape, USING_HEADER, STORED_BYTES, STORED;
    StoredParts();
    UsingBytes(size);
    SectorHeaderBytes(Empty, Clean);
    OneHolds(Clean, STORED, size);
    EmptyHolds(size);
    OneShape(Clean, STORED, size);
    forall i | 0 <= i < 2 ensures SectorBytes(Written(size)[i], InUse()[i]) && SectorShape(InUse()[i], size) {}
  }

  lemma InUseFits(size: nat)
    requires 200 < size < U32_LIMIT
    ensures var v := InUse();
            && Found(Written(size), v, size) && |Reserve(v)| > |Halves(v)| && Recovered(v, [121]) == Some([3])
            && (forall k :: k != [121] ==> Recovered(v, k) == None)
  {
    hide SectorBytes, Image, Harmless, SectorSettled, SectorExact, Lag, Faithful, Written;
    var v := InUse();
    WrittenBytes(size);
    StoredParts();
    OneRecord(Using, Clean, STORED);
    EmptyFits();
    forall i | 0 <= i < 2 ensures SectorSettled(v[i]) && SectorExact(v[i]) && Lag(v[i]) == 0 {}
    forall p, st, k | At(v, p, st, k) ensures p == Pos(0, 0) && st == Write && k == [121] {
      assert IsRec(v, p.sec, p.idx) ==> p == Pos(0, 0);
    }
    assert At(v, Pos(0, 0), Write, [121]);
    LookupIs(v, Write, [121], Pos(0, 0));
    forall k | k != [121] ensures Recovered(v, k) == None {
      LookupNone(v, Write, k);
      LookupNone(v, PreDelete, k);
    }
    forall p ensures p !in Halves(v) {
      HalvesIs(v, p);
    }
    assert Halves(v) == {} && 1 in Reserve(v);
    assert v[1] == EMPTY_SECTOR;
  }

  lemma Alone(v: View, key: Key)
    requires forall k :: k != key ==> Stored(v, k) == None
    ensures NoClash(v, key)
  {
    hide Stored, NameCrc;
  }

  /** Power-up on these contents serves the value. */
  method Serves(size: nat, start: nat, bufLen: nat) returns (data: seq<byte>, valueLen: nat)
    requires 200 < size < U32_LIMIT && start < 2
    ensures valueLen == 1 && data == if bufLen >= 1 then [3] else []
  {
    hide Found, Recovered, Stored, Quiescent, AllRight, Halves, Reserve, Written, InUse, NoClash, KvLog.Log.Valid,
         Misled, NameCrc, LagKept, AllSound, AllUnused, AllEmpty, AllSame, AllRestart, FirstStuck, SpareKept;
    InUseFits(size);
    var db, out := Reboot(Written(size), size, 2, start, InUse());
    Alone(db.log.secs, [121]);
    db.QuiescentGuarded();
    db.Findable([121]);
    data, valueLen := db.GetKv([121], bufLen);
  }

  // ----- time-series sectors -----

  /** A header: the magic word `TSL0` behind the status byte, then times and addresses. */
  function TsHeaderOf(s: TsSector, base: nat): (h: seq<byte>)
    requires s.start < U32_LIMIT
    requires s.status == Full ==>
               s.entries != [] && LastTime(s.entries) < U32_LIMIT && base + EmptyIdx(s.entries) < U32_LIMIT + 16
    ensures |h| == 32
  {
    [StoreByte(s.status), 0x54, 0x53, 0x4C, 0x30]
    + (if s.status in {Using, Full} then U32(s.start) else Ones(4))
    + (if s.status == Full then U32(LastTime(s.entries)) + U32(base + 32 + 16 * |s.entries| - 16) + [0x3F] else Ones(9))
    + Ones(14)
  }

  lemma TsHeaderBytes(b: seq<byte>, s: TsSector, base: nat)
    requires s.start < U32_LIMIT && |b| >= 32
    requires s.status == Full ==>
               s.entries != [] && LastTime(s.entries) < U32_LIMIT && base + EmptyIdx(s.entries) < U32_LIMIT + 16
    ensures HeaderIs(b, s, base) <==> b[..32] == TsHeaderOf(s, base)
  {
    hide StatusByte, U32, FromU32, StoreByte;
    StatusTable();
    TsMagicBytes();
    var h := TsHeaderOf(s, base);
    assert StatusByte(s.status.Index()) == StoreByte(s.status) by { StoreIs(s.status); }
    assert h[0] == StoreByte(s.status) && h[1..5] == [0x54, 0x53, 0x4C, 0x30] == U32(TS_MAGIC);
    assert h[5..9] == StartBytes(s) && h[9..18] == EndBytes(s, base) && h[18..32] == Ones(14);
    var c := b[..32];
    assert c[1..5] == b[1..5] && c[5..9] == b[5..9] && c[9..18] == b[9..18] && c[18..32] == b[18..32] && c[0] == b[0];
    assert c == [c[0]] + c[1..5] + c[5..9] + c[9..18] + c[18..32];
    assert h == [h[0]] + h[1..5] + h[5..9] + h[9..18] + h[18..32];
  }

  lemma StoreIs(s: Store)
    ensures StatusByte(s.Index()) == StoreByte(s)
  {
    hide StatusByte;
    StatusTable();
  }

  lemma TsMagicBytes()
    ensures U32(TS_MAGIC) == [0x54, 0x53, 0x4C, 0x30]
  {
  }

  /** An index slot: written, then time, length and address of the data. */
  lemma TsIndexBytes(e: Entry, addr: nat)
    requires e.time < U32_LIMIT && |e.data| < U32_LIMIT && addr < U32_LIMIT
    ensures IdxBytes(e, addr) == [0x3F, 0xFF, 0xFF, 0xFF] + U32(e.time) + U32(|e.data|) + U32(addr)
  {
    hide StatusByte, U32;
    StatusTable();
  }

  const TWO_HEADER: seq<byte> := [0x3F, 0x54, 0x53, 0x4C, 0x30, 5, 0, 0, 0] + Ones(23)
  const FIRST_SLOT: seq<byte> := [0x3F, 0xFF, 0xFF, 0xFF, 5, 0, 0, 0, 1, 0, 0, 0, 79, 0, 0, 0]
  const SECOND_SLOT: seq<byte> := [0x3F, 0xFF, 0xFF, 0xFF, 7, 0, 0, 0, 2, 0, 0, 0, 77, 0, 0, 0]

  /** Two entries in a sector of 80 bytes: indices from the front, data from the back. */
  function TwoEntries(): (b: seq<byte>) {
    TWO_HEADER + FIRST_SLOT + SECOND_SLOT + Ones(13) + [21, 22] + [11]
  }

  lemma TwoSlices(h: seq<byte>, f: seq<byte>, g: seq<byte>)
    requires |h| == 32 && |f| == |g| == 16
    ensures var b := h + f + g + Ones(13) + [21, 22] + [11];
            && |b| == 80 && b[..32] == h && b[32..48] == f && b[48..64] == g && b[77..79] == [21, 22]
            && b[79..80] == [11]
            && forall p :: 64 <= p < 77 ==> b[p] == ERASED
  {
  }

  lemma TwoHeader()
    ensures |TWO_HEADER| == 32 && |FIRST_SLOT| == |SECOND_SLOT| == 16
    ensures TsHeaderOf(TsSector(Using, 5, [Entry(5, [11]), Entry(7, [21, 22])]), 0) == TWO_HEADER
    ensures IdxBytes(Entry(5, [11]), 79) == FIRST_SLOT && IdxBytes(Entry(7, [21, 22]), 77) == SECOND_SLOT
  {
    hide StatusByte, U32, FromU32, IdxBytes;
    SmallWords();
    TsIndexBytes(Entry(5, [11]), 79);
    TsIndexBytes(Entry(7, [21, 22]), 77);
  }

  lemma TwoEntriesBytes()
    ensures var s := TsSector(Using, 5, [Entry(5, [11]), Entry(7, [21, 22])]);
            TsShape(s, 80, 0) && TsBytes(TwoEntries(), s, 80, 0)
  {
    hide StatusByte, U32, FromU32, IdxBytes, TWO_HEADER, FIRST_SLOT, SECOND_SLOT, TsHeaderOf, HeaderIs;
    var es, b := [Entry(5, [11]), Entry(7, [21, 22])], TwoEntries();
    var s := TsSector(Using, 5, es);
    TwoHeader();
    TwoSlices(TWO_HEADER, FIRST_SLOT, SECOND_SLOT);
    TwoLengths();
    TsHeaderBytes(b, s, 0);
    assert EntryIs(b, es, 80, 0, 0) && EntryIs(b, es, 80, 0, 1);
  }

  lemma SmallWords()
    ensures U32(5) == [5, 0, 0, 0] && U32(1) == [1, 0, 0, 0] && U32(79) == [79, 0, 0, 0] && U32(7) == [7, 0, 0, 0]
    ensures U32(2) == [2, 0, 0, 0] && U32(77) == [77, 0, 0, 0]
  {
  }

  lemma TwoLengths()
    ensures var es := [Entry(5, [11]), Entry(7, [21, 22])];
            && DataLen(es[..1]) == 1 && DataLen(es[..2]) == 3 && es[..2] == es && DataLen(es) == 3
  {
    var es := [Entry(5, [11]), Entry(7, [21, 22])];
    assert es[..1] == [Entry(5, [11])] && es[..2] == es && es[..1][..0] == [];
    assert DataLen(es[..1]) == DataLen([]) + 1;
  }
}
