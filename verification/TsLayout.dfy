/**
  A time-series sector between two appends: a header, index entries growing up behind it and log
  data growing down from the end. `TsBytes` ties the view to flash contents.
*/
module TsLayout {
  import opened Bytes
  import opened Status
  import opened KvLayout

  const TS_MAGIC: nat := 0x304C5354
  /** SECTOR_HDR_DATA_SIZE and LOG_IDX_DATA_SIZE */
  const TS_HDR: nat := 32
  const TS_IDX: nat := 16
  const TSL_STATUS_NUM: nat := 6
  const TSL_PRE_WRITE: nat := 1
  const TSL_WRITE: nat := 2
  /** Time stamps are 32-bit signed numbers. */
  const TIME_LIMIT: nat := 0x8000_0000

  datatype Entry = Entry(time: nat, data: seq<byte>)

  /** `start` is the time stamp saved when the sector was opened. */
  datatype TsSector = TsSector(status: Store, start: nat, entries: seq<Entry>)

  /** A stored word as `fdb_time_t`. */
  function AsTime(n: nat): int {
    if n < TIME_LIMIT then n else n - U32_LIMIT
  }

  function DataLen(es: seq<Entry>): nat {
    if es == [] then 0 else DataLen(es[..|es| - 1]) + |es[|es| - 1].data|
  }

  /** Offset of the next free index slot. */
  function EmptyIdx(es: seq<Entry>): nat {
    TS_HDR + TS_IDX * |es|
  }

  function IdxOff(i: nat): nat {
    TS_HDR + TS_IDX * i
  }

  /** Offset of the data of entry `i`. */
  function DataOff(es: seq<Entry>, size: nat, i: nat): int
    requires i < |es|
  {
    size - DataLen(es[..i + 1])
  }

  /** Offset where the free space ends. */
  function EmptyData(es: seq<Entry>, size: nat): int {
    size - DataLen(es)
  }

  /** The latest time stamp; zero before the first entry. */
  function LastTime(es: seq<Entry>): nat {
    if es == [] then 0 else es[|es| - 1].time
  }

  ghost predicate Increasing(es: seq<Entry>) {
    && (forall i :: 0 <= i < |es| ==> 0 < es[i].time < TIME_LIMIT)
    && (forall i, j :: 0 <= i < j < |es| ==> es[i].time < es[j].time)
  }

  /** Index and data keep out of each other's way; `base` is the byte address of the sector. */
  ghost predicate TsShape(s: TsSector, size: nat, base: nat) {
    && base + size < U32_LIMIT && TS_HDR <= size && EmptyIdx(s.entries) <= EmptyData(s.entries, size)
    && Increasing(s.entries) && s.start < TIME_LIMIT && s.status != StoreUnused
    && (s.status == Empty ==> s.entries == []) && (s.entries != [] ==> s.start == s.entries[0].time)
    && (s.status == Full ==> s.entries != [])
  }

  function IdxBytes(e: Entry, addr: nat): (r: seq<byte>)
    requires e.time < U32_LIMIT && |e.data| < U32_LIMIT && addr < U32_LIMIT
    ensures |r| == TS_IDX
  {
    [StatusByte(TSL_WRITE)] + Ones(3) + U32(e.time) + U32(|e.data|) + U32(addr)
  }

  /** The end information of a sector: time and index address of its last entry, once it is closed. */
  function EndBytes(s: TsSector, base: nat): (r: seq<byte>)
    requires s.status == Full ==>
               s.entries != [] && LastTime(s.entries) < U32_LIMIT && base + EmptyIdx(s.entries) < U32_LIMIT + TS_IDX
    ensures |r| == 9
  {
    if s.status == Full then
      U32(LastTime(s.entries)) + U32(base + EmptyIdx(s.entries) - TS_IDX) + [StatusByte(TSL_WRITE)]
    else Ones(9)
  }

  function StartBytes(s: TsSector): (r: seq<byte>)
    requires s.start < U32_LIMIT
    ensures |r| == 4
  {
    if s.status in {Using, Full} then U32(s.start) else Ones(4)
  }

  ghost predicate HeaderIs(b: seq<byte>, s: TsSector, base: nat)
    requires s.start < U32_LIMIT
    requires s.status == Full ==>
               s.entries != [] && LastTime(s.entries) < U32_LIMIT && base + EmptyIdx(s.entries) < U32_LIMIT + TS_IDX
  {
    && |b| >= TS_HDR && b[0] == StatusByte(s.status.Index()) && b[1..5] == U32(TS_MAGIC)
    && b[5..9] == StartBytes(s) && b[9..18] == EndBytes(s, base) && b[18..TS_HDR] == Ones(14)
  }

  /** Entry `i` of a sector is on flash: its index slot and its data. */
  ghost predicate EntryIs(b: seq<byte>, es: seq<Entry>, size: nat, base: nat, i: nat) {
    && i < |es| && |b| == size && es[i].time < U32_LIMIT && |es[i].data| < U32_LIMIT
    && 0 <= DataOff(es, size, i) && base + DataOff(es, size, i) < U32_LIMIT && IdxOff(i) + TS_IDX <= size
    && DataOff(es, size, i) + |es[i].data| <= size
    && b[IdxOff(i)..IdxOff(i) + TS_IDX] == IdxBytes(es[i], base + DataOff(es, size, i))
    && b[DataOff(es, size, i)..DataOff(es, size, i) + |es[i].data|] == es[i].data
  }

  ghost predicate TsBytes(b: seq<byte>, s: TsSector, size: nat, base: nat)
    requires TsShape(s, size, base)
  {
    && |b| == size && HeaderIs(b, s, base)
    && (forall i {:trigger EntryIs(b, s.entries, size, base, i)} ::
          0 <= i < |s.entries| ==> EntryIs(b, s.entries, size, base, i))
    && (forall p :: EmptyIdx(s.entries) <= p < EmptyData(s.entries, size) ==> b[p] == ERASED)
  }

  // ----- lengths -----

  lemma {:induction false} DataLenPrefix(es: seq<Entry>, i: nat)
    requires i < |es|
    ensures DataLen(es[..i]) + |es[i].data| == DataLen(es[..i + 1]) <= DataLen(es)
    decreases |es|
  {
    assert es[..i + 1][..i] == es[..i];
    if i + 1 < |es| {
      var f := es[..|es| - 1];
      DataLenPrefix(f, i);
      assert f[..i] == es[..i] && f[..i + 1] == es[..i + 1];
    } else {
      assert es[..i + 1] == es;
    }
  }

  lemma DataLenMore(es: seq<Entry>, e: Entry)
    ensures DataLen(es + [e]) == DataLen(es) + |e.data|
  {
    assert (es + [e])[..|es|] == es;
  }

  /** Data of different entries do not overlap, and lie behind the index. */
  lemma {:induction false} DataApart(es: seq<Entry>, size: nat, i: nat, j: nat)
    requires i < j < |es|
    ensures DataOff(es, size, j) + |es[j].data| <= DataOff(es, size, i)
    decreases j
  {
    DataLenPrefix(es, j);
    if i + 1 < j {
      DataApart(es, size, i, j - 1);
      DataLenPrefix(es, j - 1);
    }
  }

  lemma DataInside(s: TsSector, size: nat, base: nat, i: nat)
    requires TsShape(s, size, base) && i < |s.entries|
    ensures EmptyIdx(s.entries) <= EmptyData(s.entries, size) <= DataOff(s.entries, size, i) <=
                DataOff(s.entries, size, i) + |s.entries[i].data| <= size
    ensures IdxOff(i) + TS_IDX <= EmptyIdx(s.entries) && base + DataOff(s.entries, size, i) < U32_LIMIT
  {
    DataLenPrefix(s.entries, i);
  }
}
