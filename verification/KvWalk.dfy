/**
  Walking the records of a sector. The code finds the next record by scanning for the magic word;
  these lemmas say where the scan stops: at the next record a reader can see, whatever values the
  complete records hold, and past status bytes that a power cut left without a header.
*/
module KvWalk {
  import opened Bytes
  import opened Status
  import opened KvLayout
  import opened KvImage

  /** A lone status byte behind the first record is never read as a record. */
  predicate Visible(r: Rec) {
    r.written != 1
  }

  /** Index of the next record the walk sees, or |recs|. */
  function NextVisible(recs: seq<Rec>, i: nat): (j: nat)
    requires i < |recs|
    ensures i < j <= |recs| && (j < |recs| ==> Visible(recs[j]))
    ensures forall k :: i < k < j ==> !Visible(recs[k])
    decreases |recs| - i
  {
    if i + 1 == |recs| then i + 1 else if Visible(recs[i + 1]) then i + 1 else NextVisible(recs, i + 1)
  }

  /**
    What is found at power-up, and what every finished operation leaves: only the first record of
    a sector can be header-less, and a record whose writing was cut short is taken for nothing else.
  */
  ghost predicate SectorSettled(s: Sector) {
    && (forall i :: 0 < i < |s.recs| ==> s.recs[i].written != 4)
    && (forall i :: 0 <= i < |s.recs| ==> RecShape(s.recs[i]) && Harmless(s.recs[i]))
  }

  /** No magic word in a record that was cut short, and no chance to pass the CRC check once its end is lost. */
  ghost predicate Harmless(r: Rec)
    requires RecShape(r)
  {
    (KV_HDR <= r.written && !r.Complete() ==> Quiet(r)) && NoLuck(r)
  }

  /** Where the scan for the record after `r` starts. */
  function ScanStart(r: Rec): nat
    requires RecShape(r)
  {
    if CrcGood(r) then r.End() else r.off + 1
  }

  lemma StatusByteNotMagic(st: nat)
    requires st < 8
    ensures StatusByte(st) != 0x4B && StatusByte(st) != 0x56 && StatusByte(st) != 0x30
  {
    StatusByteBits(st);
  }

  lemma FirstByte(b: seq<byte>, r: Rec)
    requires Holds(b, r)
    ensures b[r.off] == StatusByte(r.status.Index())
    ensures b[r.off] != 0x4B && b[r.off] != 0x56 && b[r.off] != 0x30
  {
    hide Image, StatusByte, RecShape;
    SomeBytes(r);
    ImageAt(r, 0);
    StatusByteNotMagic(r.status.Index());
    assert b[r.off..r.End()][0] == b[r.off];
  }

  lemma HeaderStart(b: seq<byte>, r: Rec, p: nat)
    requires Holds(b, r) && r.written >= 4 && p < 8
    ensures 0 < p < 4 ==> b[r.off + p] == ERASED
    ensures r.written >= KV_HDR ==> MagicAt(b, r.off + 4)
  {
    hide StatusByte, U32, Image, CrcHead, RecCrc;
    BareHead(r);
    if 0 < p < 4 {
      assert b[r.off + p] == b[r.off..r.End()][p] == Image(r)[..4][p];
    }
    if r.written >= KV_HDR {
      ImageFields(r);
      MagicIsWord(b, r.off + 4);
      assert b[r.off + 4..r.off + 8] == b[r.off..r.End()][4..8];
    }
  }

  /** The byte right behind record `i`: the status byte of the next one, or erased. */
  lemma ByteBehind(b: seq<byte>, s: Sector, i: nat)
    requires SectorBytes(b, s) && Chained(s.recs) && i < |s.recs| && s.recs[i].End() < |b|
    ensures var c := b[s.recs[i].End()]; c != 0x4B && c != 0x56 && c != 0x30
  {
    hide Image, StatusByte, RecShape, SectorHeader;
    if i + 1 < |s.recs| {
      assert Adjacent(s.recs, i);
      FirstByte(b, s.recs[i + 1]);
    }
  }

  lemma CutIsQuiet(b: seq<byte>, s: Sector, i: nat)
    requires SectorBytes(b, s) && SectorSettled(s) && i < |s.recs| && Visible(s.recs[i]) && RecShape(s.recs[i])
    requires !CrcGood(s.recs[i])
    ensures Holds(b, s.recs[i]) && (s.recs[i].written == 4 || Quiet(s.recs[i]))
  {
    hide Image, CrcGood, Quiet;
    CompleteNotBad(s.recs[i]);
  }

  /** Inside a record that was cut short there is no magic word, nor across its end. */
  lemma NoMagicInside(b: seq<byte>, s: Sector, i: nat, q: nat)
    requires SectorBytes(b, s) && Chained(s.recs) && SectorSettled(s) && i < |s.recs| && Visible(s.recs[i])
    requires !CrcGood(s.recs[i])
    requires s.recs[i].off + 5 <= q < s.recs[i].End()
    ensures !MagicAt(b, q)
  {
    hide Image, StatusByte, SectorHeader, CrcGood, SectorBytes, SectorSettled, RecShape;
    var r := s.recs[i];
    CutIsQuiet(b, s, i);
    var p := q - r.off;
    var img := Image(r);
    assert forall k :: 0 <= k < r.Len() ==> b[r.off + k] == b[r.off..r.End()][k] == img[k];
    if r.written == 4 {
      ImageAt(r, p);
    } else {
      assert !MagicAt(img, p);
      if q + 4 > r.End() && r.End() < |b| {
        ByteBehind(b, s, i);
      }
    }
  }

  lemma CompleteNotBad(r: Rec)
    requires RecShape(r) && !CrcGood(r)
    ensures !r.Complete()
  {
    if r.Complete() {
      CompleteIsGood(r);
    }
  }

  /** Records the walk skips are single bytes, so the next visible one follows at that distance. */
  lemma {:induction false} ScrapRun(recs: seq<Rec>, i: nat, k: nat)
    requires Chained(recs) && i < k <= |recs| && forall m :: i < m < k ==> !Visible(recs[m])
    ensures k < |recs| ==> recs[k].off == recs[i].End() + (k - i - 1)
    ensures recs[k - 1].End() == recs[i].End() + (k - i - 1)
    decreases k
  {
    if k - 1 > i {
      ScrapRun(recs, i, k - 1);
    }
    if k < |recs| {
      assert Adjacent(recs, k - 1);
    }
  }

  lemma TailNotMagic(b: seq<byte>, s: Sector, q: nat)
    requires SectorBytes(b, s) && s.recs != [] && s.End() <= q
    ensures !MagicAt(b, q)
  {
    hide Image, StatusByte, SectorHeader, RecShape;
  }

  lemma ScrapNotMagic(b: seq<byte>, s: Sector, k: nat)
    requires SectorBytes(b, s) && k < |s.recs|
    ensures !MagicAt(b, s.recs[k].off)
  {
    hide Image, StatusByte, SectorHeader, RecShape;
    assert Holds(b, s.recs[k]);
    FirstByte(b, s.recs[k]);
  }

  lemma StartNotMagic(b: seq<byte>, s: Sector, j: nat, p: nat)
    requires SectorBytes(b, s) && SectorSettled(s) && 0 < j < |s.recs| && Visible(s.recs[j]) && p < 4
    ensures !MagicAt(b, s.recs[j].off + p)
  {
    hide Image, StatusByte, SectorHeader, RecShape, Quiet;
    AfterFirst(s, j);
    assert Holds(b, s.recs[j]);
    FirstByte(b, s.recs[j]);
    HeaderStart(b, s.recs[j], p);
  }

  /** From behind record `i` up to the magic word of the next visible record nothing matches. */
  lemma NoMagicBetween(b: seq<byte>, s: Sector, i: nat, q: nat)
    requires SectorBytes(b, s) && Chained(s.recs) && SectorSettled(s) && i < |s.recs|
    requires var j := NextVisible(s.recs, i);
             s.recs[i].End() <= q < (if j < |s.recs| then s.recs[j].off + 4 else |b|)
    ensures !MagicAt(b, q)
  {
    hide SectorBytes, SectorSettled, MagicAt, Chained, RecShape, NextVisible;
    var j := NextVisible(s.recs, i);
    var k := i + 1 + (q - s.recs[i].End());
    ScrapRun(s.recs, i, j);
    if k < j {
      ScrapRun(s.recs, i, k);
      ScrapNotMagic(b, s, k);
    } else if j < |s.recs| {
      StartNotMagic(b, s, j, q - s.recs[j].off);
    } else {
      TailNotMagic(b, s, q);
    }
  }

  lemma AfterFirst(s: Sector, j: nat)
    requires SectorSettled(s) && 0 < j < |s.recs| && Visible(s.recs[j])
    ensures s.recs[j].written >= KV_HDR
  {
  }

  /**
    The scan rule: starting behind a good record, or one byte into a bad one, the first magic
    word is that of the next visible record; a good record may itself contain the magic word.
  */
  lemma ScanFindsNext(b: seq<byte>, s: Sector, i: nat)
    requires SectorBytes(b, s) && Chained(s.recs) && SectorSettled(s) && i < |s.recs| && Visible(s.recs[i])
    ensures var j := NextVisible(s.recs, i);
            && (j < |s.recs| ==> MagicAt(b, s.recs[j].off + 4) && ScanStart(s.recs[i]) <= s.recs[j].off)
            && forall q ::
                 ScanStart(s.recs[i]) + 4 <= q < (if j < |s.recs| then s.recs[j].off + 4 else |b|) ==> !MagicAt(b, q)
  {
    hide Image, StatusByte, SectorHeader, Quiet, CrcGood, MagicAt, SectorBytes, SectorSettled, RecShape, Chained;
    SettledRecShape(s, i);
    ScanWithin(s, i);
    var j := NextVisible(s.recs, i);
    forall q | ScanStart(s.recs[i]) + 4 <= q < (if j < |s.recs| then s.recs[j].off + 4 else |b|)
      ensures !MagicAt(b, q)
    {
      if q < s.recs[i].End() {
        NoMagicInside(b, s, i, q);
      } else {
        NoMagicBetween(b, s, i, q);
      }
    }
    if j < |s.recs| {
      AfterFirst(s, j);
      HoldsRec(b, s, j);
      HeaderStart(b, s.recs[j], 0);
    }
  }

  lemma SettledRecShape(s: Sector, i: nat)
    requires SectorSettled(s) && i < |s.recs|
    ensures RecShape(s.recs[i])
  {
  }

  lemma HoldsRec(b: seq<byte>, s: Sector, i: nat)
    requires SectorBytes(b, s) && i < |s.recs|
    ensures Holds(b, s.recs[i])
  {
  }

  lemma ScanWithin(s: Sector, i: nat)
    requires Chained(s.recs) && SectorSettled(s) && i < |s.recs| && RecShape(s.recs[i]) && Visible(s.recs[i])
    ensures s.recs[i].off < ScanStart(s.recs[i]) <= s.recs[i].End()
    ensures (!CrcGood(s.recs[i]) ==> ScanStart(s.recs[i]) == s.recs[i].off + 1)
    ensures CrcGood(s.recs[i]) ==> ScanStart(s.recs[i]) == s.recs[i].End()
    ensures var j := NextVisible(s.recs, i); j < |s.recs| ==> s.recs[i].End() <= s.recs[j].off
  {
    hide Image, CrcGood, Quiet;
  }
}
