/**
  The ring of sectors both stores go round: addresses wrap from the last sector to the first.
*/
module Ring {

  /** How many sectors after `from` a walk round the ring of `num` sectors meets `i`. */
  function Dist(from: nat, num: nat, i: nat): (d: nat)
    requires from < num && i < num
    ensures d < num
  {
    if i >= from then i - from else i + num - from
  }

  /** `get_next_sector_addr` without its end test */
  function NextSector(num: nat, i: nat): (n: nat)
    requires i < num
    ensures n < num
  {
    if i + 1 < num then i + 1 else 0
  }

  lemma DistStart(from: nat, num: nat)
    requires from < num
    ensures Dist(from, num, from) == 0
  {
  }

  lemma DistNext(from: nat, num: nat, sec: nat)
    requires from < num && sec < num
    ensures Dist(from, num, sec) + 1 < num ==> Dist(from, num, NextSector(num, sec)) == Dist(from, num, sec) + 1
  {
  }

  lemma SameDist(oldest: nat, num: nat, x: nat, y: nat)
    requires oldest < num && x < num && y < num
    ensures Dist(oldest, num, x) == Dist(oldest, num, y) <==> x == y
  {
  }

  /** The sector met after `k` others on the way round the ring. */
  function SectorAfter(oldest: nat, num: nat, k: nat): (s: nat)
    requires oldest < num && k < num
    ensures s < num && Dist(oldest, num, s) == k
  {
    if oldest + k < num then oldest + k else oldest + k - num
  }

  lemma NextAfter(oldest: nat, num: nat, k: nat)
    requires oldest < num && 0 < k < num
    ensures NextSector(num, SectorAfter(oldest, num, k - 1)) == SectorAfter(oldest, num, k)
  {
  }

  /** `get_last_sector_addr` without its end test */
  function PrevSector(num: nat, i: nat): (n: nat)
    requires i < num
    ensures n < num && NextSector(num, n) == i
  {
    if i > 0 then i - 1 else num - 1
  }
}
