/** Lengths of zone domains and realms, recomputed from end positions that name the last block. */
module Realms {
  import opened Bits
  import opened ZoneWire
  import opened ZoneCommand

  /** `zbc_zone_domain_zone_size`: the zone size of a domain, in 32 bits. */
  function DomainZoneSize(startSector: nat, endSector: nat, nrZones: nat): nat
    requires nrZones > 0 && startSector <= endSector + 1
  {
    U32((endSector + 1 - startSector) / nrZones)
  }

  /**
   * The zone count of a realm in a domain, as the two drivers recompute it; 0 if it cannot be, or if the
   * end of the realm is sector 0, which stands for a realm without zones in the domain.
   */
  function RealmLength(domainStart: nat, domainEnd: nat, nrZones: nat, realmStart: nat, realmEnd: nat): nat
    requires domainStart <= domainEnd + 1 && realmStart <= realmEnd + 1
  {
    if realmEnd == 0 || nrZones == 0 then 0
    else
      var zoneSize := DomainZoneSize(domainStart, domainEnd, nrZones);
      if zoneSize == 0 then 0 else U32((realmEnd + 1 - realmStart) / zoneSize)
  }

  /** Without zones, in the realm or in the domain, or with a zone size of 2^32 sectors, no length is computed. */
  lemma RealmLengthUnset(domainStart: nat, domainEnd: nat, nrZones: nat, realmStart: nat, realmEnd: nat)
    requires domainStart <= domainEnd + 1 && realmStart <= realmEnd + 1
    requires realmEnd == 0 || nrZones == 0 || (domainEnd + 1 - domainStart) / nrZones % 0x1_0000_0000 == 0
    ensures RealmLength(domainStart, domainEnd, nrZones, realmStart, realmEnd) == 0
  {
  }

  /**
   * End positions are first sectors of last blocks, so every span of `k`-sector blocks is short by
   * `d = k - 1` sectors. Exactly when the recomputed count of a realm of `m` zones is `m`, for a domain
   * of `n` zones of `z` sectors: the shortage per zone, rounded up to `c`, must make up for `d` over the
   * realm, and must not add up to a zone; and the realm is not the single block 0.
   */
  lemma RealmLengthExactly(k: nat, n: nat, z: nat, m: nat, domainStart: nat, realmStart: nat)
    requires 0 < k && 0 < n && 0 < m && k <= n * z && k <= m * z
    requires CeilDiv(k - 1, n) < z && z < 0x1_0000_0000 && m * z < 0x1_0000_0000
    ensures var d, c := k - 1, CeilDiv(k - 1, n);
            var length := RealmLength(domainStart, domainStart + n * z - k, n, realmStart, realmStart + m * z - k);
            length == m <==> (realmStart + m * z > k && d <= m * c && (m + 1) * c < z + d)
  {
    hide CeilDiv, RealmLength, U32;
    var d, c, domainSpan, realmSpan := k - 1, CeilDiv(k - 1, n), n * z - (k - 1), m * z - (k - 1);
    ShortZone(n, z, d);
    LengthOfSpans(domainStart, domainSpan, n, realmStart, realmSpan, z - c);
    ExactCount(realmSpan, m, z, c, d);
  }

  lemma ExactCount(realmSpan: nat, m: nat, z: nat, c: nat, d: nat)
    requires realmSpan == m * z - d && realmSpan < 0x1_0000_0000 && c < z
    ensures U32(realmSpan / (z - c)) == m <==> (d <= m * c && (m + 1) * c < z + d)
  {
    LengthFromSize(realmSpan, z - c, m);
    Shortage(m, z, c);
  }

  lemma LengthOfSpans(domainStart: nat, domainSpan: nat, n: nat, realmStart: nat, realmSpan: nat, size: nat)
    requires n > 0 && domainSpan > 0 && realmSpan > 0
    requires domainSpan / n == size && 0 < size < 0x1_0000_0000
    ensures RealmLength(domainStart, domainStart + domainSpan - 1, n, realmStart, realmStart + realmSpan - 1)
         == if realmStart + realmSpan == 1 then 0 else U32(realmSpan / size)
  {
    hide DomainZoneSize;
    SizeOfSpan(domainStart, domainSpan, n, size);
    assert realmStart + realmSpan - 1 + 1 - realmStart == realmSpan;
  }

  lemma SizeOfSpan(start: nat, span: nat, n: nat, size: nat)
    requires n > 0 && span > 0 && span / n == size && size < 0x1_0000_0000
    ensures DomainZoneSize(start, start + span - 1, n) == size
  {
    assert start + span - 1 + 1 - start == span;
  }

  lemma LengthFromSize(x: nat, size: nat, m: nat)
    requires 0 < size && x < 0x1_0000_0000
    ensures U32(x / size) == m <==> m * size <= x < (m + 1) * size
  {
    QuotientAtMost(x, size);
    QuotientIs(x, size, m);
  }

  lemma Shortage(m: nat, z: nat, c: nat)
    requires c <= z
    ensures m * (z - c) == m * z - m * c && (m + 1) * (z - c) == m * z + z - (m + 1) * c
  {
  }

  lemma ShortZone(n: nat, z: nat, d: nat)
    requires n > 0 && d <= n * z && CeilDiv(d, n) <= z
    ensures (n * z - d) / n == z - CeilDiv(d, n)
  {
    var c := CeilDiv(d, n);
    CeilDivBounds(d, n);
    assert n * z - d == (z - c) * n + (c * n - d);
    DivModUnique(n * z - d, n, z - c, c * n - d);
  }

  lemma QuotientIs(x: nat, size: nat, m: nat)
    requires size > 0
    ensures x / size == m <==> m * size <= x < (m + 1) * size
  {
    QuotientLess(x, size, m + 1);
    QuotientLess(x, size, m);
  }

  lemma QuotientAtMost(x: nat, size: nat)
    requires size > 0 && x < 0x1_0000_0000
    ensures x / size < 0x1_0000_0000
  {
    MulGrows(size, 0x1_0000_0000);
    QuotientLess(x, size, 0x1_0000_0000);
  }

  /** With 512-byte blocks the recomputed count is right exactly unless the realm is the single sector 0. */
  lemma RealmLengthOfSectors(n: nat, z: nat, m: nat, domainStart: nat, realmStart: nat)
    requires 0 < n && 0 < m && 0 < z < 0x1_0000_0000 && m * z < 0x1_0000_0000
    ensures n * z > 0 && m * z > 0
    ensures RealmLength(domainStart, domainStart + n * z - 1, n, realmStart, realmStart + m * z - 1) == m
       <==> realmStart + m * z > 1
  {
    MulGrows(n, z);
    MulGrows(m, z);
    CeilDivUnique(0, n, 0);
    RealmLengthExactly(1, n, z, m, domainStart, realmStart);
  }

  /** A realm of one 256 MiB zone on a drive with 4 KiB blocks is recomputed as empty. */
  lemma OneZoneRealmLost()
    ensures RealmLength(0, 100 * 0x8_0000 - 8, 100, 0, 0x8_0000 - 8) == 0
  {
  }

  // ---------------------------------------------------------------------------------------------
  // Highest sectors
  // ---------------------------------------------------------------------------------------------

  /** `zbc_zone_domain_high_sect` and `zbc_realm_high_sector`. */
  function HighSector(lblock: nat, endSector: nat): int
    requires lblock > 0
  {
    LbaToSector(lblock, SectorToLba(lblock, endSector) + 1) - 1
  }

  /** The highest sector is the greatest one whose block is at most the end block. */
  lemma HighSectorIsGreatest(lblock: nat, lbas: nat, endSector: nat, sector: nat)
    requires Geometry(lblock, lbas) && endSector < lbas * (lblock / 512) && sector < lbas * (lblock / 512)
    ensures sector <= HighSector(lblock, endSector) <==>
              SectorToLba(lblock, sector) <= SectorToLba(lblock, endSector)
    ensures 0 <= HighSector(lblock, endSector) < lbas * (lblock / 512)
  {
    hide SectorToLba, LbaToSector;
    var k := lblock / 512;
    SectorScales(lblock, lbas, endSector);
    SectorScales(lblock, lbas, sector);
    var last, r := Quotient(endSector, k);
    QuotientLess(endSector, k, lbas);
    LbaScales(lblock, lbas, last + 1);
    QuotientLess(sector, k, last + 1);
    MulGrows(last + 1, k);
    MulMonotone(last + 1, lbas, k);
  }
}
