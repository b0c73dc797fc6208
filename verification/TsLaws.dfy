/**
  What an append does to the sectors, said without the cursors: where the entry goes, when a sector is
  closed, and what rollover gives up.
*/
module TsLaws {
  import opened Bytes
  import opened KvLayout
  import opened TsLayout
  import opened TsView
  import opened Ring

  /** The bytes of all data, whatever the order. */
  function Sum(es: seq<Entry>): nat {
    if es == [] then 0 else |es[0].data| + Sum(es[1..])
  }

  lemma {:induction false} SumIsLen(es: seq<Entry>)
    ensures Sum(es) == DataLen(es)
  {
    if es != [] {
      SumIsLen(es[1..]);
      FrontLen(es);
    }
  }

  lemma {:induction false} FrontLen(es: seq<Entry>)
    requires es != []
    ensures DataLen(es) == |es[0].data| + DataLen(es[1..])
  {
    if |es| > 1 {
      var f := es[..|es| - 1];
      FrontLen(f);
      assert f[0] == es[0] && es[1..][..|es| - 2] == f[1..] && es[1..][|es| - 2] == es[|es| - 1];
    }
  }

  /** Header, index and data leave room for one index slot more and `len` bytes. */
  ghost predicate Takes(es: seq<Entry>, size: nat, len: nat) {
    32 + 16 * |es| + 16 + len + Sum(es) <= size
  }

  /** The entry joins the others of its sector; nothing else changes. */
  ghost predicate Joins(a: Sectors, b: Sectors, sec: nat, e: Entry) {
    sec < |a| && b == a[sec := TsSector(Using, a[sec].start, a[sec].entries + [e])]
  }

  /** The entry is the first of an empty sector. */
  ghost predicate Opens(a: Sectors, b: Sectors, sec: nat, e: Entry) {
    sec < |a| && b == a[sec := TsSector(Using, e.time, [e])]
  }

  /** The sector is closed as it is, and the entry is the first of the next one. */
  ghost predicate MovesOn(a: Sectors, b: Sectors, sec: nat, e: Entry) {
    sec < |a| &&
    b == a[sec := TsSector(Full, a[sec].start, a[sec].entries)][(sec + 1) % |a| := TsSector(Using, e.time, [e])]
  }

  /** An accepted append, from the sectors, the current and the oldest one, and what was dropped so far. */
  ghost predicate Accepted(a: Sectors, sec: nat, oldest: nat, dropped: nat, size: nat, e: Entry, b: Sectors, sec2: nat,
                           oldest2: nat, dropped2: nat)
  {
    sec < |a| &&
    if a[sec].status == Empty then
      Opens(a, b, sec, e) && sec2 == sec && oldest2 == oldest && dropped2 == dropped
    else if Takes(a[sec].entries, size, |e.data|) then
      Joins(a, b, sec, e) && sec2 == sec && oldest2 == oldest && dropped2 == dropped
    else
      && MovesOn(a, b, sec, e) && sec2 == (sec + 1) % |a|
      && if a[sec2].status == Empty then oldest2 == oldest && dropped2 == dropped
         else oldest2 == (sec2 + 1) % |a| && dropped2 == dropped + |a[sec2].entries|
  }

  /** There is no sector left for it: all are closed, or the last one is too full and nothing may be given up. */
  ghost predicate NowhereToGo(a: Sectors, sec: nat, rollover: bool, size: nat, len: nat) {
    sec < |a| &&
    (a[sec].status == Full ||
     (a[sec].status == Using && !Takes(a[sec].entries, size, len) && sec == |a| - 1 && !rollover))
  }

  lemma RoomIs(es: seq<Entry>, size: nat, len: nat)
    ensures Takes(es, size, len) <==> EmptyIdx(es) + TS_IDX + len <= EmptyData(es, size)
  {
    SumIsLen(es);
  }

  lemma NextIs(num: nat, i: nat)
    requires i < num
    ensures NextSector(num, i) == (i + 1) % num
  {
  }

  /** With nothing empty behind the current sector the next one is the oldest. */
  lemma AfterCurrent(a: Sectors, oldest: nat, sec: nat)
    requires InRing(a, oldest, sec) && |a| >= 2
    ensures var n := NextSector(|a|, sec);
            if Dist(oldest, |a|, sec) + 1 < |a| then a[n].status == Empty else n == oldest && a[n].status == Full
  {
    var n, c := NextSector(|a|, sec), Dist(oldest, |a|, sec);
    if c + 1 < |a| {
      assert SectorAfter(oldest, |a|, c + 1) == n;
    } else {
      assert SectorAfter(oldest, |a|, 0) == oldest == n;
    }
  }

  /** The rule above is what opening, closing and adding come to. */
  lemma AcceptedIs(a: Sectors, sec: nat, oldest: nat, dropped: nat, size: nat, e: Entry, closing: bool, over: bool,
                   b: Sectors, sec2: nat, oldest2: nat, dropped2: nat)
    requires InRing(a, oldest, sec) && |a| >= 2 && a[sec].status in {Using, Empty}
    requires a[sec].status == Empty ==> a[sec].entries == []
    requires closing <==> a[sec].status == Using && !Takes(a[sec].entries, size, |e.data|)
    requires over <==> closing && Dist(oldest, |a|, sec) + 1 == |a|
    requires sec2 == (if closing then NextSector(|a|, sec) else sec)
    requires b == WithEntry(Ready(a, sec, closing, e.time), sec2, e)
    requires oldest2 == if over then NextSector(|a|, oldest) else oldest
    requires dropped2 == dropped + (if over then |a[oldest].entries| else 0)
    ensures Accepted(a, sec, oldest, dropped, size, e, b, sec2, oldest2, dropped2)
  {
    hide Takes, Dist, RingShape;
    NextIs(|a|, sec);
    NextIs(|a|, NextSector(|a|, sec));
    AfterCurrent(a, oldest, sec);
    assert [] + [e] == [e];
  }

  // ----- what a query by time delivers -----

  /** The stretch `i..j` of the list holds exactly what lies in the range. */
  ghost predicate Stretch(s: seq<Tsl>, from: int, to: int, i: nat, j: nat) {
    i <= j <= |s| && forall k :: 0 <= k < |s| ==> (i <= k < j <==> from <= s[k].time <= to)
  }

  ghost predicate TimesRise(s: seq<Tsl>) {
    forall i, j :: 0 <= i < j < |s| ==> s[i].time < s[j].time
  }

  lemma {:induction false} BetweenAll(s: seq<Tsl>, from: int, to: int)
    requires forall i :: 0 <= i < |s| ==> from <= s[i].time <= to
    ensures Between(s, from, to) == s
  {
    if s != [] {
      BetweenAll(s[1..], from, to);
      assert s == [s[0]] + s[1..];
    }
  }

  lemma BetweenStretch(s: seq<Tsl>, from: int, to: int, i: nat, j: nat)
    requires Stretch(s, from, to, i, j)
    ensures Between(s, from, to) == s[i..j]
  {
    hide Between;
    var a, b, c := s[..i], s[i..j], s[j..];
    assert s == a + (b + c);
    assert forall k :: 0 <= k < |c| ==> c[k] == s[j + k];
    BetweenNone(a, from, to);
    BetweenAll(b, from, to);
    BetweenNone(c, from, to);
    BetweenConcat(b, c, from, to);
    BetweenConcat(a, b + c, from, to);
  }

  /** The first entry whose time is past `x`. */
  lemma {:induction false} FirstPast(s: seq<Tsl>, x: int, n: nat) returns (i: nat)
    requires TimesRise(s) && n <= |s| && forall k :: n <= k < |s| ==> s[k].time > x
    ensures i <= n && forall k :: 0 <= k < |s| ==> (k >= i <==> s[k].time > x)
    decreases n
  {
    if n == 0 || s[n - 1].time <= x {
      i := n;
    } else {
      i := FirstPast(s, x, n - 1);
    }
  }

  /** A list in order of time has such a stretch, and that is what the query delivers. */
  lemma QueryIsStretch(s: seq<Tsl>, from: int, to: int)
    requires TimesRise(s) && from <= to
    ensures exists i: nat, j: nat :: Stretch(s, from, to, i, j) && Between(s, from, to) == s[i..j]
  {
    var i := FirstPast(s, from - 1, |s|);
    var j := FirstPast(s, to, |s|);
    assert j < |s| ==> s[j].time > to;
    assert Stretch(s, from, to, i, j);
    BetweenStretch(s, from, to, i, j);
  }
}
