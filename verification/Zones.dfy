/** Zones as the library presents them: positions and lengths in 512-byte sectors. */
module Zones {
  const ZT_SEQUENTIAL_REQ: nat := 0x02
  const ZT_SEQUENTIAL_PREF: nat := 0x03
  const ZT_SEQ_OR_BEF_REQ: nat := 0x04
  const ZT_GAP: nat := 0x05

  const ZC_NOT_WP: nat := 0x00
  const ZC_EMPTY: nat := 0x01
  const ZC_IMP_OPEN: nat := 0x02
  const ZC_EXP_OPEN: nat := 0x03
  const ZC_CLOSED: nat := 0x04
  const ZC_INACTIVE: nat := 0x05
  const ZC_RDONLY: nat := 0x0D
  const ZC_FULL: nat := 0x0E
  const ZC_OFFLINE: nat := 0x0F

  const NO_WRITE_POINTER: nat := 0xFFFF_FFFF_FFFF_FFFF

  datatype Zone = Zone(length: nat, start: nat, writePointer: nat, ztype: nat, condition: nat, attributes: nat)
  {
    function End(): nat {
      start + length
    }

    predicate HasWritePointer() {
      ztype == ZT_SEQUENTIAL_REQ || ztype == ZT_SEQUENTIAL_PREF || ztype == ZT_SEQ_OR_BEF_REQ
    }
  }

  // ---------------------------------------------------------------------------------------------
  // Zone tables
  // ---------------------------------------------------------------------------------------------

  /** Non-empty zones that follow each other without gaps, from `start` to `end`. */
  predicate Contiguous(zones: seq<Zone>, start: nat, end: nat) {
    if zones == [] then start == end
    else zones[0].start == start && zones[0].length > 0 && Contiguous(zones[1..], zones[0].End(), end)
  }

  /** The zones selected by a reporting option, 6 bits; reserved options select nothing. */
  predicate Selects(option: nat, z: Zone) {
    match option
    case 0x00 => true
    case 0x01 => z.condition == ZC_EMPTY
    case 0x02 => z.condition == ZC_IMP_OPEN
    case 0x03 => z.condition == ZC_EXP_OPEN
    case 0x04 => z.condition == ZC_CLOSED
    case 0x05 => z.condition == ZC_FULL
    case 0x06 => z.condition == ZC_RDONLY
    case 0x07 => z.condition == ZC_OFFLINE
    case 0x08 => z.condition == ZC_INACTIVE
    case 0x10 => z.attributes % 2 == 1
    case 0x11 => z.attributes / 2 % 2 == 1
    case 0x3E => z.ztype != ZT_GAP
    case 0x3F => z.condition == ZC_NOT_WP
    case _ => false
  }

  /** The reporting options in numbers: conditions, attributes, zone types, and zones without a write pointer. */
  lemma SelectsExactly(option: nat, z: Zone)
    ensures Selects(option, z) <==>
              || option == 0x00
              || (option == 0x01 && z.condition == 0x01) || (option == 0x02 && z.condition == 0x02)
              || (option == 0x03 && z.condition == 0x03) || (option == 0x04 && z.condition == 0x04)
              || (option == 0x05 && z.condition == 0x0E) || (option == 0x06 && z.condition == 0x0D)
              || (option == 0x07 && z.condition == 0x0F) || (option == 0x08 && z.condition == 0x05)
              || (option == 0x10 && z.attributes % 2 == 1) || (option == 0x11 && z.attributes / 2 % 2 == 1)
              || (option == 0x3E && z.ztype != 0x05) || (option == 0x3F && z.condition == 0x00)
  {
  }

  /** The zones containing or after `sector` that the option selects, in order. */
  function Matches(zones: seq<Zone>, sector: nat, option: nat): seq<Zone> {
    if zones == [] then []
    else
      var rest := Matches(zones[1..], sector, option);
      if zones[0].End() > sector && Selects(option, zones[0]) then [zones[0]] + rest else rest
  }

  /** Membership in the matches is the filter itself. */
  lemma {:induction false} MatchesExactly(zones: seq<Zone>, sector: nat, option: nat, z: Zone)
    ensures z in Matches(zones, sector, option) <==> (z in zones && z.End() > sector && Selects(option, z))
  {
    if zones != [] {
      MatchesExactly(zones[1..], sector, option, z);
      assert zones == [zones[0]] + zones[1..];
    }
  }

  lemma {:induction false} ContiguousBounds(zones: seq<Zone>, start: nat, end: nat)
    requires Contiguous(zones, start, end)
    ensures start <= end
    ensures forall i :: 0 <= i < |zones| ==> start <= zones[i].start < zones[i].End() <= end
    ensures forall i, j :: 0 <= i < j < |zones| ==> zones[i].End() <= zones[j].start
  {
    if zones != [] {
      ContiguousBounds(zones[1..], zones[0].End(), end);
      assert forall i :: 0 < i < |zones| ==> zones[i] == zones[1..][i - 1];
    }
  }

  /** Zones that lie wholly before the sector never match. */
  lemma {:induction false} MatchesPast(zones: seq<Zone>, start: nat, end: nat, sector: nat, option: nat)
    requires Contiguous(zones, start, end) && sector >= end
    ensures Matches(zones, sector, option) == []
  {
    if zones != [] {
      ContiguousBounds(zones, start, end);
      MatchesPast(zones[1..], zones[0].End(), end, sector, option);
    }
  }

  /** The first match from a sector, and the matches from the end of that zone on. */
  lemma {:induction false} MatchesStep(zones: seq<Zone>, start: nat, end: nat, sector: nat, option: nat)
    requires Contiguous(zones, start, end) && Matches(zones, sector, option) != []
    ensures var m := Matches(zones, sector, option);
            && m[0].End() > sector && m[0].End() <= end && m[0].length > 0
            && Matches(zones, m[0].End(), option) == m[1..]
  {
    ContiguousBounds(zones, start, end);
    var z, tail := zones[0], zones[1..];
    if z.End() > sector && Selects(option, z) {
      AllMatchFrom(tail, z.End(), end, sector, z.End(), option);
    } else {
      MatchesStep(tail, z.End(), end, sector, option);
      var m := Matches(tail, sector, option);
      ContiguousBounds(tail, z.End(), end);
      MatchesExactly(tail, sector, option, m[0]);
      assert m[0] in tail;
    }
  }

  /** Zones that start at or after both sectors match from either alike. */
  lemma {:induction false} AllMatchFrom(zones: seq<Zone>, start: nat, end: nat, low: nat, high: nat, option: nat)
    requires Contiguous(zones, start, end) && low <= high <= start
    ensures Matches(zones, low, option) == Matches(zones, high, option)
  {
    if zones != [] {
      AllMatchFrom(zones[1..], zones[0].End(), end, low, high, option);
    }
  }

  /**
   * Resuming: after any non-empty page of matches, a query from the end of its last zone continues
   * exactly where the page stopped, at a strictly greater sector.
   */
  lemma {:induction false} MatchesResume(zones: seq<Zone>, start: nat, end: nat, sector: nat, option: nat, n: nat)
    requires Contiguous(zones, start, end) && 0 < n <= |Matches(zones, sector, option)|
    ensures var m := Matches(zones, sector, option);
            && sector < m[n - 1].End() <= end
            && Matches(zones, m[n - 1].End(), option) == m[n..]
    decreases n
  {
    var m := Matches(zones, sector, option);
    MatchesStep(zones, start, end, sector, option);
    if n > 1 {
      assert m[1..][n - 2] == m[n - 1] && m[1..][n - 1..] == m[n..];
      MatchesResume(zones, start, end, m[0].End(), option, n - 1);
    }
  }
}
