/**
  What a key-value sector holds and the bytes that stand for it. A `Sector` is the view the
  proofs work with; `SectorBytes` ties it to flash contents. Records may be half written:
  `written` counts the bytes programmed so far, which is what a power cut leaves behind.
*/
module KvLayout {
  import opened Bytes
  import opened Status
  import opened Crc32

  const SECTOR_MAGIC: nat := 0x30424446
  const KV_MAGIC: nat := 0x3030564B
  /** SECTOR_HDR_DATA_SIZE, KV_HDR_DATA_SIZE, FDB_KV_NAME_MAX, FDB_SEC_REMAIN_THRESHOLD */
  const SECTOR_HDR: nat := 16
  const KV_HDR: nat := 24
  const NAME_MAX: nat := 64
  const REMAIN_THRESHOLD: nat := KV_HDR + NAME_MAX
  const DIRTY_OFFSET: nat := 1
  const KV_STATUS_NUM: nat := 6
  const SECTOR_STATUS_NUM: nat := 4

  datatype KvStatus = Unused | PreWrite | Write | PreDelete | Deleted | ErrHdr {
    function Index(): (n: nat)
      ensures n < KV_STATUS_NUM
    {
      match this
      case Unused => 0
      case PreWrite => 1
      case Write => 2
      case PreDelete => 3
      case Deleted => 4
      case ErrHdr => 5
    }
  }

  function KvStatusOf(n: nat): (s: KvStatus)
    requires n < KV_STATUS_NUM
    ensures s.Index() == n
  {
    if n == 0 then Unused else if n == 1 then PreWrite else if n == 2 then Write
    else if n == 3 then PreDelete else if n == 4 then Deleted else ErrHdr
  }

  datatype Store = StoreUnused | Empty | Using | Full {
    function Index(): (n: nat)
      ensures n < SECTOR_STATUS_NUM
    {
      match this
      case StoreUnused => 0
      case Empty => 1
      case Using => 2
      case Full => 3
    }
  }

  function StoreOf(n: nat): (s: Store)
    requires n < SECTOR_STATUS_NUM
    ensures s.Index() == n
  {
    if n == 0 then StoreUnused else if n == 1 then Empty else if n == 2 then Using else Full
  }

  datatype Dirt = DirtUnused | Clean | Dirty | Gc {
    function Index(): (n: nat)
      ensures n < SECTOR_STATUS_NUM
    {
      match this
      case DirtUnused => 0
      case Clean => 1
      case Dirty => 2
      case Gc => 3
    }
  }

  function DirtOf(n: nat): (d: Dirt)
    requires n < SECTOR_STATUS_NUM
    ensures d.Index() == n
  {
    if n == 0 then DirtUnused else if n == 1 then Clean else if n == 2 then Dirty else Gc
  }

  /**
    A record at `off` in its sector, with its first `written` bytes (status aside) programmed. One
    that was cut short can lose `short` bytes of its erased end to the record laid behind it.
  */
  datatype Rec = Rec(off: nat, status: KvStatus, key: seq<byte>, value: seq<byte>, written: nat, short: nat := 0) {
    /** Bytes taken in the sector; a lone status byte takes just itself. */
    function Len(): nat {
      if written == 1 then 1 else if short <= Stated() then Stated() - short else 0
    }

    /** The length its header states. */
    function Stated(): nat {
      Size(key, value)
    }

    function End(): nat {
      off + Len()
    }

    predicate Complete() {
      written == Size(key, value)
    }
  }

  datatype Sector = Sector(store: Store, dirt: Dirt, recs: seq<Rec>) {
    /** Offset of the first free byte. */
    function End(): nat {
      if recs == [] then SECTOR_HDR else recs[|recs| - 1].End()
    }
  }

  function Size(key: seq<byte>, value: seq<byte>): nat {
    KV_HDR + |key| + |value|
  }

  /** Keys are C strings of at most 63 characters; sizes fit the 32-bit length field. */
  predicate Storable(key: seq<byte>, value: seq<byte>) {
    |key| < NAME_MAX && Size(key, value) < U32_LIMIT
  }

  // ----- record bytes -----

  /** name_len with its padding, then value_len: the part of the header under the CRC. */
  function CrcHead(key: seq<byte>, value: seq<byte>): (r: seq<byte>)
    requires Storable(key, value)
    ensures |r| == 8
  {
    [|key| as byte, ERASED, ERASED, ERASED] + U32(|value|)
  }

  lemma WordFits(c: bv32)
    ensures (c as nat) < U32_LIMIT
  {
  }

  function RecCrc(key: seq<byte>, value: seq<byte>): (c: nat)
    requires Storable(key, value)
    ensures c < U32_LIMIT
  {
    var c := Crc(CrcHead(key, value) + key + value);
    WordFits(c);
    c as nat
  }

  function HeaderBytes(key: seq<byte>, value: seq<byte>): (r: seq<byte>)
    requires Storable(key, value)
    ensures |r| == KV_HDR
  {
    Ones(4) + U32(KV_MAGIC) + U32(Size(key, value)) + U32(RecCrc(key, value)) + CrcHead(key, value)
  }

  /** The whole record before its status byte is programmed. */
  function RecBytes(key: seq<byte>, value: seq<byte>): (r: seq<byte>)
    requires Storable(key, value)
    ensures |r| == Size(key, value)
  {
    HeaderBytes(key, value) + key + value
  }

  /**
    The states a record can be found in. With 4 bytes counted as written only the status byte is
    there and the rest of a header is still erased; a reader takes it for a bare header. With 1
    byte it is a status byte that a power cut left behind and that nobody reads. From the header
    on the length is known. Statuses past PRE_WRITE, other than the error mark, are programmed on
    complete records only.
  */
  predicate RecShape(r: Rec) {
    && Storable(r.key, r.value)
    && (if r.written == 1 then r.key == [] && r.value == [] && r.status == PreWrite && r.short == 0
        else if r.written == 4 then r.key == [] && r.value == [] && r.status in {Unused, PreWrite, ErrHdr} &&
                 r.short == 0
        else KV_HDR <= r.written <= r.Len() && r.status != Unused && (!r.Complete() ==> r.status in {PreWrite, ErrHdr}))
  }

  function Image(r: Rec): (b: seq<byte>)
    requires RecShape(r)
    ensures |b| == r.Len()
  {
    [StatusByte(r.status.Index())] + RecBytes(r.key, r.value)[1..r.written] + Ones(r.Len() - r.written)
  }

  lemma SomeBytes(r: Rec)
    requires RecShape(r)
    ensures r.Len() > 0 && r.Len() + r.short <= (if r.written == 1 then 1 else r.Stated())
    ensures (r.Complete() ==> r.short == 0)
  {
  }

  /** The bytes of an image, one by one. */
  lemma ImageAt(r: Rec, p: nat)
    requires RecShape(r) && p < r.Len()
    ensures p == 0 ==> Image(r)[p] == StatusByte(r.status.Index())
    ensures 0 < p < r.written ==> Image(r)[p] == RecBytes(r.key, r.value)[p]
    ensures p >= r.written ==> Image(r)[p] == ERASED
  {
    hide RecBytes, StatusByte;
  }

  lemma HeaderParts(key: seq<byte>, value: seq<byte>)
    requires Storable(key, value)
    ensures var h := HeaderBytes(key, value);
            && h[..4] == Ones(4) && h[4..8] == U32(KV_MAGIC) && h[8..12] == U32(Size(key, value))
            && h[12..16] == U32(RecCrc(key, value)) && h[16..] == CrcHead(key, value)
  {
  }

  /** What the fields of a record with a header read as. */
  lemma ImageFields(r: Rec)
    requires RecShape(r) && r.written >= KV_HDR
    ensures var b := Image(r);
            && b[0] == StatusByte(r.status.Index()) && b[1..4] == Ones(3)
            && b[4..8] == U32(KV_MAGIC) && b[8..12] == U32(r.Stated())
            && b[12..16] == U32(RecCrc(r.key, r.value)) && b[16..24] == CrcHead(r.key, r.value)
  {
    hide HeaderBytes, StatusByte, U32, RecCrc, CrcHead;
    HeaderParts(r.key, r.value);
    var b, h := Image(r), HeaderBytes(r.key, r.value);
    assert forall i :: 1 <= i < KV_HDR ==> b[i] == h[i];
    assert b[1..4] == h[1..4] && b[4..8] == h[4..8] && b[8..12] == h[8..12] && b[12..16] == h[12..16] &&
           b[16..24] == h[16..24];
  }

  lemma ThreeParts(h: seq<byte>, k: seq<byte>, v: seq<byte>)
    ensures var w := h + k + v;
            w[|h|..|h| + |k|] == k && w[|h| + |k|..] == v && w[|h|..] == k + v
  {
  }

  lemma ImageOfComplete(r: Rec)
    requires RecShape(r) && r.Complete()
    ensures var b := Image(r);
            && b[16..] == CrcHead(r.key, r.value) + r.key + r.value
            && b[KV_HDR..KV_HDR + |r.key|] == r.key && b[KV_HDR + |r.key|..] == r.value
  {
    hide CrcHead, HeaderBytes, StatusByte, U32, RecCrc;
    ImageFields(r);
    ThreeParts(HeaderBytes(r.key, r.value), r.key, r.value);
    var b, w := Image(r), RecBytes(r.key, r.value);
    TailOfImage(b, w, StatusByte(r.status.Index()), KV_HDR, KV_HDR + |r.key|);
    assert b[16..] == b[16..24] + b[24..];
  }

  lemma TailOfImage(b: seq<byte>, w: seq<byte>, s: byte, i: nat, j: nat)
    requires |w| > 0 && 1 <= i <= j <= |w| && b == [s] + w[1..] + Ones(0)
    ensures b[i..] == w[i..] && b[j..] == w[j..] && b[i..j] == w[i..j]
  {
  }

  lemma ImageOfBare(r: Rec)
    requires RecShape(r) && r.written == 4
    ensures var b := Image(r);
            && b[0] == StatusByte(r.status.Index()) && b[1..] == Ones(KV_HDR - 1) && b[8..12] == Ones(4)
  {
    hide Image, StatusByte, U32, CrcHead, RecCrc;
    HeaderParts([], []);
    forall p | 0 <= p < KV_HDR ensures p > 0 ==> Image(r)[p] == ERASED {
      ImageAt(r, p);
      if 0 < p < 4 {
        assert HeaderBytes([], [])[..4][p] == ERASED;
      }
    }
    ImageAt(r, 0);
  }

  /** Reading back the CRC of a record agrees with the stored one. */
  predicate CrcGood(r: Rec)
    requires RecShape(r)
  {
    r.written >= KV_HDR && r.short == 0 && (Crc(Image(r)[16..]) as nat) == RecCrc(r.key, r.value)
  }

  /** Whatever bytes follow what is left of it, a record cut short does not pass the CRC check. */
  ghost predicate NoLuck(r: Rec)
    requires RecShape(r)
  {
    r.short > 0 ==> forall t: seq<byte> :: |t| == r.short ==> (Crc(Image(r)[16..] + t) as nat) != RecCrc(r.key, r.value)
  }

  lemma CompleteIsGood(r: Rec)
    requires RecShape(r) && r.Complete()
    ensures CrcGood(r)
  {
    ImageOfComplete(r);
  }
}
