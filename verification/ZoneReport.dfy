/**
 * Listing zones: the paging loop of `zbc_report_zones` and `zbc_list_zones` over the SCSI and ATA
 * backends, down to the bytes of each command and reply.
 */
module ZoneReport {
  import opened Bits
  import opened Errors
  import opened ByteCodec
  import opened Zones
  import opened ZoneWire
  import opened ZoneCommand

  /**
   * What a successful reply to `q` may be: a prefix of the parameter data for the first `k` matches
   * and of anything after it. A partial report counts only the descriptors that it holds, and holds
   * one if any zone matches; otherwise all the matches are counted. An eager drive fills the buffer.
   */
  predicate Answers(backend: Backend, table: seq<Zone>, maxLba: nat, eager: bool, q: Request, reply: seq<byte>,
                    k: nat, filler: seq<byte>, pad: seq<byte>)
    requires q.allocation >= 64
  {
    var m := Matches(table, q.lba, q.option);
    && k <= |m| && |filler| == 64 + 64 * k && AllEncodable(m[..k])
    && reply <= PrintReport(backend, 64 * (if q.partial then k else |m|), maxLba, m[..k], filler) + pad
    && (q.partial && k == 0 ==> m == [])
    && (|reply| < 64 || k == 0 || |reply| >= 128)
    && (eager ==> k == Min(|m|, q.allocation / 64 - 1) && |reply| >= 64 + 64 * k)
  }

  /** The decoded page: some of the first matches, at least one if there is any, all that fit if eager. */
  lemma PartialAnswerDecodes(backend: Backend, lblock: nat, table: seq<Zone>, maxLba: nat, eager: bool, q: Request,
                             reply: seq<byte>, k: nat, filler: seq<byte>, pad: seq<byte>, wanted: nat)
    requires q.allocation >= 64 && q.partial && |table| < 0x3FF_FFFF && wanted > 0
    requires Answers(backend, table, maxLba, eager, q, reply, k, filler, pad) && |reply| >= 64
    ensures var m, n := Matches(table, q.lba, q.option), ZonesReceived(backend, reply, wanted);
            && n <= |m| && n <= wanted && (n == 0 ==> m == [])
            && DecodeZones(backend, lblock, reply, n) == ImportAll(lblock, m[..n])
            && (eager ==> n == Min(Min(wanted, q.allocation / 64 - 1), |m|))
  {
    hide PrintReport, DecodeZones, GetDword;
    var m := Matches(table, q.lba, q.option);
    MatchesShorter(table, q.lba, q.option);
    ReplyDecodes(backend, lblock, reply, 64 * k, maxLba, m[..k], filler, pad, 0);
    var n := ZonesReceived(backend, reply, wanted);
    ReplyDecodes(backend, lblock, reply, 64 * k, maxLba, m[..k], filler, pad, n);
    assert m[..k][..n] == m[..n];
  }

  /** The list length of a full report counts all the matches. */
  lemma FullAnswerCounts(backend: Backend, table: seq<Zone>, maxLba: nat, eager: bool, q: Request, reply: seq<byte>,
                         k: nat, filler: seq<byte>, pad: seq<byte>)
    requires q.allocation >= 64 && !q.partial && |table| < 0x3FF_FFFF
    requires Answers(backend, table, maxLba, eager, q, reply, k, filler, pad) && |reply| >= 64
    ensures GetDword(backend, reply[..4]) / 64 == |Matches(table, q.lba, q.option)|
  {
    hide PrintReport, DecodeZones, GetDword;
    var m := Matches(table, q.lba, q.option);
    MatchesShorter(table, q.lba, q.option);
    ReplyDecodes(backend, 512, reply, 64 * |m|, maxLba, m[..k], filler, pad, 0);
  }

  lemma {:induction false} MatchesShorter(zones: seq<Zone>, lba: nat, option: nat)
    ensures |Matches(zones, lba, option)| <= |zones|
  {
    if zones != [] {
      MatchesShorter(zones[1..], lba, option);
    }
  }

  /** `n` zones are a page of the matches: within the array, and not empty if anything matches. */
  predicate PageOf(m: seq<Zone>, n: nat, wanted: nat) {
    n <= |m| && n <= wanted && (n == 0 ==> m == [])
  }

  // ---------------------------------------------------------------------------------------------
  // Paging
  // ---------------------------------------------------------------------------------------------

  /** The stored zones are the first matches, and the others are those found from `sector` on. */
  predicate Paged(table: seq<Zone>, from: nat, option: nat, sector: nat, stored: seq<Zone>) {
    var m := Matches(table, from, option);
    && |stored| <= |m| && stored == m[..|stored|]
    && Matches(table, sector, option) == m[|stored|..]
  }

  /** Any non-empty page leads to a later sector, from which exactly the remaining matches are found. */
  lemma PagedStep(table: seq<Zone>, end: nat, from: nat, option: nat, sector: nat, stored: seq<Zone>, n: nat)
    requires Contiguous(table, 0, end) && Paged(table, from, option, sector, stored)
    requires 0 < n <= |Matches(table, sector, option)|
    ensures var page := Matches(table, sector, option)[..n];
            && sector < page[n - 1].End() <= end
            && Paged(table, from, option, page[n - 1].End(), stored + page)
  {
    MatchesResume(table, 0, end, sector, option, n);
    var m := Matches(table, from, option);
    assert m[|stored|..][..n] == m[|stored|..|stored| + n];
    assert m[|stored|..][n..] == m[|stored| + n..];
  }

  lemma PagedEnds(table: seq<Zone>, end: nat, from: nat, option: nat, sector: nat, stored: seq<Zone>)
    requires Contiguous(table, 0, end) && Paged(table, from, option, sector, stored) && sector >= end
    ensures stored == Matches(table, from, option)
  {
    MatchesPast(table, 0, end, sector, option);
  }

  /** `c` full buffers bring `nz` of `total` zones, and none of them was unnecessary. */
  predicate Paid(c: int, nz: nat, total: nat, capacity: nat) {
    && c >= 0 && nz == Min(c * capacity, total)
    && (c > 0 ==> (c - 1) * capacity < total)
  }

  lemma CapacityPositive(maxRwSectors: nat)
    ensures DescriptorsPerCommand(maxRwSectors) > 0
  {
  }

  /** The sector up to which a listing from `sector` has covered the drive. */
  function Reached(sector: nat, stored: seq<Zone>): nat {
    if stored == [] then sector else stored[|stored| - 1].End()
  }

  /** The listing of a drive of `end` sectors from `from` stands at `sector`; there is `more` or it is complete. */
  predicate Listing(table: seq<Zone>, end: nat, from: nat, option: nat, sector: nat, stored: seq<Zone>, more: bool) {
    && Paged(table, from, option, sector, stored)
    && sector == Reached(from, stored)
    && if more then sector < end else stored == Matches(table, from, option)
  }

  lemma ListingStarts(table: seq<Zone>, end: nat, from: nat, option: nat)
    requires from < end
    ensures Listing(table, end, from, option, from, [], true)
  {
  }

  /** A page of what is left is listed, and moves the position to its end. */
  lemma ListingStep(table: seq<Zone>, end: nat, from: nat, option: nat, sector: nat, stored: seq<Zone>, n: nat, wanted: nat)
    requires Contiguous(table, 0, end) && Listing(table, end, from, option, sector, stored, true)
    requires PageOf(Matches(table, sector, option), n, wanted)
    ensures var rest := Matches(table, sector, option);
            var all := stored + rest[..n];
            var next := if n > 0 then rest[n - 1].End() else sector;
            && Listing(table, end, from, option, next, all, n > 0 && next < end)
            && |stored| + |rest| == |Matches(table, from, option)|
            && (n == 0 ==> next < end) && (next >= end ==> n == |rest|)
  {
    hide Contiguous, Matches;
    var rest := Matches(table, sector, option);
    var all := stored + rest[..n];
    if n > 0 {
      PagedStep(table, end, from, option, sector, stored, n);
      if rest[n - 1].End() >= end {
        PagedEnds(table, end, from, option, rest[n - 1].End(), all);
      }
    } else {
      assert all == stored;
      assert Matches(table, from, option)[|stored|..] == [];
    }
  }

  lemma ListingPrefix(table: seq<Zone>, end: nat, from: nat, option: nat, sector: nat, stored: seq<Zone>, more: bool)
    requires Listing(table, end, from, option, sector, stored, more)
    ensures |stored| <= |Matches(table, from, option)| && stored == Matches(table, from, option)[..|stored|]
    ensures sector == Reached(from, stored) && (!more ==> |stored| == |Matches(table, from, option)|)
  {
  }

  /** One command for every full buffer, and one more if neither the array nor the drive is used up. */
  function CommandCount(nz: nat, maxZones: nat, capacity: nat, reached: nat, end: nat): nat
    requires capacity > 0
  {
    CeilDiv(nz, capacity) + if nz < maxZones && reached < end then 1 else 0
  }

  /** The cost of a listing while it goes on, and once it is over. */
  predicate Costs(c: int, nz: nat, maxZones: nat, matches: nat, capacity: nat, reached: nat, end: nat, more: bool)
    requires capacity > 0
  {
    if more then Paid(c, nz, Min(maxZones, matches), capacity)
    else c == CommandCount(nz, maxZones, capacity, reached, end)
  }

  lemma CostsStart(maxZones: nat, matches: nat, capacity: nat, reached: nat, end: nat)
    requires capacity > 0
    ensures Costs(0, 0, maxZones, matches, capacity, reached, end, true)
    ensures reached >= end ==> Costs(0, 0, maxZones, matches, capacity, reached, end, false)
  {
    CeilDivUnique(0, capacity, 0);
  }

  /** The command of a page: a page that ends the drive ends the listing, and so does an empty one. */
  lemma CostsStep(c: int, nz: nat, n: nat, maxZones: nat, matches: nat, capacity: nat, before: nat, after: nat, end: nat)
    requires capacity > 0 && Costs(c, nz, maxZones, matches, capacity, before, end, true)
    requires nz < maxZones && nz <= matches && n == Min(Min(maxZones - nz, capacity), matches - nz)
    requires (n == 0 ==> after < end) && (after >= end ==> nz + n == matches)
    ensures Costs(c + 1, nz + n, maxZones, matches, capacity, after, end, n > 0 && after < end)
  {
    hide Paid, CeilDiv;
    if n == 0 {
      PaidEnds(c, nz, capacity);
    } else {
      PaidNext(c, nz, n, Min(maxZones, matches), capacity);
      if nz + n == matches {
        PaidEnds(c + 1, nz + n, capacity);
      }
    }
  }

  lemma CostsMean(c: int, nz: nat, maxZones: nat, matches: nat, capacity: nat, reached: nat, end: nat)
    requires capacity > 0 && Costs(c, nz, maxZones, matches, capacity, reached, end, false)
    ensures c == CommandCount(nz, maxZones, capacity, reached, end)
  {
  }

  lemma PaidNext(c: int, nz: nat, n: nat, total: nat, capacity: nat)
    requires Paid(c, nz, total, capacity) && nz < total && n == Min(capacity, total - nz)
    ensures Paid(c + 1, nz + n, total, capacity)
  {
    assert (c + 1) * capacity == c * capacity + capacity;
  }

  lemma CostsEnd(c: int, nz: nat, maxZones: nat, matches: nat, capacity: nat, reached: nat, end: nat)
    requires capacity > 0 && Costs(c, nz, maxZones, matches, capacity, reached, end, true) && nz == maxZones <= matches
    ensures Costs(c, nz, maxZones, matches, capacity, reached, end, false)
  {
    PaidEnds(c, nz, capacity);
  }

  lemma PaidEnds(c: int, total: nat, capacity: nat)
    requires Paid(c, total, total, capacity) && capacity > 0
    ensures c == CeilDiv(total, capacity)
  {
    if c > 0 {
      assert c * capacity == (c - 1) * capacity + capacity;
    }
    CeilDivUnique(total, capacity, c);
  }

  /** In a gap-free table that reaches past the sector, the last match ends the drive if it is the last zone. */
  lemma {:induction false} LastMatch(table: seq<Zone>, start: nat, end: nat, sector: nat, option: nat)
    requires Contiguous(table, start, end) && table != [] && sector < end
    ensures var m := Matches(table, sector, option);
            Reached(sector, m) >= end <==> Selects(option, table[|table| - 1])
  {
    ContiguousBounds(table, start, end);
    var tail := table[1..];
    if tail != [] {
      LastMatch(tail, table[0].End(), end, sector, option);
    } else {
      assert table[0].End() == end;
    }
  }

  /**
   * A listing needs no more commands than full buffers would hold its array, exactly unless the array is
   * larger than the list, its last buffer is not needed for more zones, and the last zone of the drive is
   * not selected.
   */
  lemma ArrayBoundExactly(table: seq<Zone>, end: nat, sector: nat, option: nat, maxZones: nat, capacity: nat)
    requires Contiguous(table, 0, end) && sector < end && capacity > 0
    ensures table != []
    ensures var m := Matches(table, sector, option);
            var nr := Min(maxZones, |m|);
            (CommandCount(nr, maxZones, capacity, Reached(sector, m[..nr]), end) <= CeilDiv(maxZones, capacity))
              <==> (|m| >= maxZones || Selects(option, table[|table| - 1])
                    || CeilDiv(|m|, capacity) < CeilDiv(maxZones, capacity))
  {
    hide CeilDiv;
    var m := Matches(table, sector, option);
    LastMatch(table, 0, end, sector, option);
    if |m| < maxZones {
      assert m[..|m|] == m;
      CeilDivMonotone(|m|, maxZones, capacity);
    }
  }

  lemma CeilDivMonotone(x: nat, y: nat, n: nat)
    requires n > 0 && x <= y
    ensures CeilDiv(x, n) <= CeilDiv(y, n)
  {
    QuotientMonotone(x + (n - 1), y + (n - 1), n);
  }

  /** Listings of all zones never need more. */
  lemma ArrayBoundOfAllZones(table: seq<Zone>, end: nat, sector: nat, maxZones: nat, capacity: nat)
    requires Contiguous(table, 0, end) && sector < end && capacity > 0
    ensures var m := Matches(table, sector, 0);
            var nr := Min(maxZones, |m|);
            CommandCount(nr, maxZones, capacity, Reached(sector, m[..nr]), end) <= CeilDiv(maxZones, capacity)
  {
    ArrayBoundExactly(table, end, sector, 0, maxZones, capacity);
  }

  lemma FullArrayCount(nz: nat, capacity: nat, reached: nat, end: nat)
    requires capacity > 0
    ensures CommandCount(nz, nz, capacity, reached, end) == CeilDiv(nz, capacity)
  {
  }

  /** `n` full zones of one block from `start` on, and an empty one. */
  function FullThenEmpty(start: nat, n: nat): (table: seq<Zone>)
    ensures |table| == n + 1
    decreases n
  {
    if n == 0 then [Zone(1, start, start, ZT_SEQUENTIAL_REQ, ZC_EMPTY, 0)]
    else [Zone(1, start, start, ZT_SEQUENTIAL_REQ, ZC_FULL, 0)] + FullThenEmpty(start + 1, n - 1)
  }

  lemma {:induction false} FullMatches(start: nat, n: nat)
    ensures var table := FullThenEmpty(start, n);
            && Contiguous(table, start, start + n + 1)
            && |Matches(table, 0, 0x05)| == n && !Selects(0x05, table[n])
    decreases n
  {
    if n > 0 {
      FullMatches(start + 1, n - 1);
      assert FullThenEmpty(start, n)[1..] == FullThenEmpty(start + 1, n - 1);
    }
  }

  /**
   * A concrete case: with buffers of 7 zones, a listing of the full zones into an array of 10 takes 3
   * commands and not 2, when the first 8 of the 9 zones are full.
   */
  lemma OneCommandMore()
    ensures var table, capacity := FullThenEmpty(0, 8), DescriptorsPerCommand(1);
            var m := Matches(table, 0, 0x05);
            && Contiguous(table, 0, 9) && |m| == 8
            && CommandCount(8, 10, capacity, Reached(0, m), 9) == 3 && CeilDiv(10, capacity) == 2
  {
    hide Matches, FullThenEmpty, Selects, Contiguous, Reached;
    FullMatches(0, 8);
    LastMatch(FullThenEmpty(0, 8), 0, 9, 0, 0x05);
  }

  class ZonedDrive {
    const backend: Backend
    const lblock: nat
    const lbas: nat
    const maxRwSectors: nat
    /** The drive always returns as many descriptors as fit the allocation. */
    const eager: bool

    /** The zones, in logical blocks. */
    var table: seq<Zone>
    /** The report commands so far, and those that failed or whose reply lacks a header. */
    ghost var commands: nat
    ghost var faults: nat

    constructor (backend: Backend, lblock: nat, lbas: nat, maxRwSectors: nat, eager: bool, table: seq<Zone>)
      ensures this.backend == backend && this.lblock == lblock && this.lbas == lbas
      ensures this.maxRwSectors == maxRwSectors && this.eager == eager && this.table == table && commands == 0 && faults == 0
    {
      this.backend, this.lblock, this.lbas := backend, lblock, lbas;
      this.maxRwSectors, this.eager, this.table, this.commands, this.faults := maxRwSectors, eager, table, 0, 0;
    }

    /** A gap-free table whose positions and list length commands can express, and a 32-bit largest transfer. */
    ghost predicate Valid()
      reads `table
    {
      && Geometry(lblock, lbas) && Contiguous(table, 0, lbas) && AllEncodable(table)
      && |table| < 0x3FF_FFFF && maxRwSectors < 0x1_0000_0000
      && (backend == Ata ==> lbas <= 0x1_0000_0000_0000)
    }

    /** The capacity in sectors. */
    function Sectors(): nat {
      lbas * (lblock / 512)
    }

    function MaxLba(): nat {
      if lbas == 0 then 0 else lbas - 1
    }

    function SectorTable(): seq<Zone>
      reads `table
    {
      ImportAll(lblock, table)
    }

    /**
     * One command: it fails, or answers a well-formed report command within the allocation, which is
     * none or holds at least one zone.
     */
    method Execute(cdb: array<byte>)
      returns (ret: int, reply: seq<byte>, ghost k: nat, ghost filler: seq<byte>, ghost pad: seq<byte>)
      requires Valid() && cdb.Length >= 16 && ParseReportCommand(backend, cdb[..]).Report?
      modifies `commands, `faults
      ensures commands == old(commands) + 1 && ret <= 0
      ensures faults == old(faults) + if ret != 0 || |reply| < 64 then 1 else 0
      ensures var q := ParseReportCommand(backend, cdb[..]).request;
              && |reply| <= q.allocation
              && (ret == 0 && q.allocation >= 128 ==>
                    Answers(backend, table, MaxLba(), eager, q, reply, k, filler, pad))
    {
      hide ParseReportCommand, PrintReport, Contiguous, Geometry;
      var q := ParseReportCommand(backend, cdb[..]).request;
      commands, k, filler, pad, ret, reply := commands + 1, 0, [], [], 0, [];
      if q.allocation < 128 {
        faults := faults + 1;
        return;
      }
      var m := Matches(table, q.lba, q.option);
      var held: nat := Min(|m|, q.allocation / 64 - 1);
      if !eager && held > 0 {
        held :| 1 <= held <= Min(|m|, q.allocation / 64 - 1);
      }
      k, filler := held, seq(64 + 64 * held, _ => 0);
      MatchesEncodable(table, q.lba, q.option);
      reply := PrintReport(backend, 64 * (if q.partial then held else |m|), MaxLba(), m[..held],
                           seq(64 + 64 * held, _ => 0));
      if * {
        ret, faults := -EIO, faults + 1;
      }
    }

    /** The buffer size for `wanted` zones that arrives at the drive. */
    function Allocation(wanted: nat, fill: bool): nat {
      CarriedSize(backend, ReportBufferSize(maxRwSectors, wanted, fill))
    }

    /** Builds the report command for a buffer of `wanted` zones, and issues it. */
    method Query(sector: nat, ro: nat, wanted: nat, fill: bool)
      returns (ret: int, reply: seq<byte>, ghost k: nat, ghost filler: seq<byte>, ghost pad: seq<byte>)
      requires Valid() && sector < Sectors()
      requires ro < 0x40 || 0x80 <= ro < 0xC0
      modifies `commands, `faults
      ensures commands == old(commands) + 1 && ret <= 0
      ensures faults == old(faults) + if ret != 0 || |reply| < 64 then 1 else 0
      ensures |reply| <= Allocation(wanted, fill)
      ensures ret == 0 && |reply| >= 64 ==>
                && Allocation(wanted, fill) >= 128
                && Answers(backend, table, MaxLba(), eager,
                           Request(SectorToLba(lblock, sector), Allocation(wanted, fill), ro >= 0x80, ro % 0x40),
                           reply, k, filler, pad)
    {
      hide And, Matches, ReportBufferSize, Answers, ParseReportCommand, Contiguous, CarriedSize;
      var lba, bufsz := SectorToLba(lblock, sector), ReportBufferSize(maxRwSectors, wanted, fill);
      BufferIsBlocks(maxRwSectors, wanted, fill);
      CarriedBlocks(backend, bufsz);
      LbaArrives(backend, lblock, lbas, sector);
      var cdb: array<byte>;
      match backend {
        case Scsi => cdb := BuildScsiCommand(lba, bufsz, ro);
        case Ata => cdb := BuildAtaCommand(lba, bufsz, ro);
      }
      ret, reply, k, filler, pad := Execute(cdb);
    }

    /**
     * The report command of a driver, which stores the zones decoded from the reply from `at` on. It
     * fails exactly if the drive does, or if no header comes back; so always if no buffer arrives.
     */
    method DriverReport(sector: nat, ro: nat, zones: array<Zone>, at: nat, wanted: nat, fill: bool)
      returns (ret: int, n: nat)
      requires Valid() && sector < Sectors() && at + wanted <= zones.Length
      requires if fill then 0x80 <= ro < 0xC0 && wanted > 0 else ro < 0x40
      modifies zones, `commands, `faults
      ensures commands == old(commands) + 1 && ret <= 0
      ensures faults == old(faults) + if ret != 0 then 1 else 0
      ensures Allocation(wanted, fill) == 0 ==> ret != 0
      ensures zones[..at] == old(zones[..at])
      ensures ret == 0 && !fill ==> n == |Matches(SectorTable(), sector, ro)|
      ensures ret == 0 && fill ==>
                && PageOf(Matches(SectorTable(), sector, ro - 0x80), n, wanted)
                && zones[at..at + n] == Matches(SectorTable(), sector, ro - 0x80)[..n]
                && (eager && Roomy(backend, maxRwSectors, wanted) ==>
                      n == Min(Min(wanted, DescriptorsPerCommand(maxRwSectors)),
                               |Matches(SectorTable(), sector, ro - 0x80)|))
    {
      hide Matches, ReportBufferSize, Answers, Contiguous, DecodeZones, GetDword, ZonesReceived, DescriptorsPerCommand,
        CarriedSize, Roomy, Allocation;
      var reply: seq<byte>;
      ghost var k, filler, pad;
      ret, reply, k, filler, pad := Query(sector, ro, wanted, fill);
      if ret != 0 {
        return ret, 0;
      }
      ret, n := DecodeReply(backend, lblock, reply, zones, at, wanted, fill);
      if ret == 0 {
        ReplyMeans(sector, ro, wanted, fill, reply, k, filler, pad);
      }
    }

    lemma ReplyMeans(sector: nat, ro: nat, wanted: nat, fill: bool, reply: seq<byte>, k: nat, filler: seq<byte>,
                     pad: seq<byte>)
      requires Valid() && sector < Sectors() && |reply| >= 64
      requires if fill then 0x80 <= ro < 0xC0 && wanted > 0 else ro < 0x40
      requires Allocation(wanted, fill) >= 128
      requires Answers(backend, table, MaxLba(), eager,
                       Request(SectorToLba(lblock, sector), Allocation(wanted, fill), ro >= 0x80, ro % 0x40),
                       reply, k, filler, pad)
      ensures var m, n := Matches(SectorTable(), sector, ro % 0x40), ZonesReceived(backend, reply, wanted);
              if fill then
                && PageOf(m, n, wanted) && DecodeZones(backend, lblock, reply, n) == m[..n]
                && (eager && Roomy(backend, maxRwSectors, wanted) ==>
                      n == Min(Min(wanted, DescriptorsPerCommand(maxRwSectors)), |m|))
              else GetDword(backend, reply[..4]) / 64 == |m|
    {
      hide Matches, ReportBufferSize, Answers, Contiguous, DecodeZones, GetDword, ZonesReceived, DescriptorsPerCommand,
        CarriedSize;
      var lba, size := SectorToLba(lblock, sector), Allocation(wanted, fill);
      var q := Request(lba, size, ro >= 0x80, ro % 0x40);
      TableMatches(sector, ro % 0x40);
      if fill {
        PartialAnswerDecodes(backend, lblock, table, MaxLba(), eager, q, reply, k, filler, pad, wanted);
        ImportPrefix(lblock, Matches(table, lba, q.option), ZonesReceived(backend, reply, wanted));
        if Roomy(backend, maxRwSectors, wanted) {
          BufferHoldsDescriptors(maxRwSectors, wanted, fill);
        }
      } else {
        FullAnswerCounts(backend, table, MaxLba(), eager, q, reply, k, filler, pad);
      }
    }

    /** A query in sectors finds the zones that the drive finds in logical blocks. */
    lemma TableMatches(sector: nat, option: nat)
      requires Valid() && sector < Sectors()
      ensures Matches(SectorTable(), sector, option)
           == ImportAll(lblock, Matches(table, SectorToLba(lblock, sector), option))
    {
      ContiguousBounds(table, 0, lbas);
      MatchesImported(lblock, lbas, table, sector, option);
    }

    /**
     * One turn of the paging loop: the next page is stored, and the position moves to its end, unless
     * nothing is left or the drive ends there.
     */
    method NextPage(from: nat, option: nat, sector: nat, zones: array<Zone>, nz: nat, maxZones: nat, ghost spent: int)
      returns (ret: int, n: nat, next: nat, more: bool)
      requires Valid() && option < 0x40 && sector < Sectors() && nz < maxZones <= zones.Length
      requires Listing(SectorTable(), Sectors(), from, option, sector, zones[..nz], true)
      requires eager && Roomy(backend, maxRwSectors, maxZones) ==>
                 Costs(spent, nz, maxZones, |Matches(SectorTable(), from, option)|,
                       DescriptorsPerCommand(maxRwSectors), sector, Sectors(), true)
      modifies zones, `commands, `faults
      ensures commands == old(commands) + 1 && ret <= 0
      ensures faults == old(faults) + if ret != 0 then 1 else 0
      ensures Allocation(maxZones - nz, true) == 0 ==> ret != 0
      ensures ret == 0 ==>
                && nz + n <= maxZones && (more ==> n > 0 && next < Sectors())
                && Listing(SectorTable(), Sectors(), from, option, next, zones[..nz + n], more)
                && (eager && Roomy(backend, maxRwSectors, maxZones) ==>
                      Costs(spent + 1, nz + n, maxZones, |Matches(SectorTable(), from, option)|,
                            DescriptorsPerCommand(maxRwSectors), next, Sectors(), more))
    {
      hide Contiguous, Geometry, DescriptorsPerCommand, Listing, Costs, Matches, Roomy, Allocation;
      next, more := sector, false;
      ghost var rest := Matches(SectorTable(), sector, option);
      ret, n := DriverReport(sector, option + 0x80, zones, nz, maxZones - nz, true);
      if ret == 0 {
        TableContiguous();
        ListingStep(SectorTable(), Sectors(), from, option, sector, zones[..nz], n, maxZones - nz);
        assert zones[..nz + n] == zones[..nz] + rest[..n];
        if n > 0 {
          assert zones[nz..nz + n][n - 1] == zones[nz + n - 1];
          next := zones[nz + n - 1].End();
          more := next < Sectors();
        }
        if eager && Roomy(backend, maxRwSectors, maxZones) {
          RoomyForFewer(backend, maxRwSectors, maxZones, maxZones - nz);
          CapacityPositive(maxRwSectors);
          CostsStep(spent, nz, n, maxZones, |Matches(SectorTable(), from, option)|,
                    DescriptorsPerCommand(maxRwSectors), sector, next, Sectors());
        }
      }
    }

    lemma TableContiguous()
      requires Valid()
      ensures Contiguous(SectorTable(), 0, Sectors())
    {
      ContiguousImported(lblock, lbas, table, 0);
    }

    /**
     * `zbc_report_zones` with an array: the first matching zones that fit it, each once and in order,
     * however the drive pages them, unless a command fails, as the first one does if its buffer arrives
     * empty. If the buffer arrives unchanged, an eager drive needs one command per full buffer, and one
     * more exactly if the array is larger than the list and the last zone listed is not the last of the
     * drive.
     */
    method ReportZones(sector: nat, ro: nat, zones: array<Zone>, maxZones: nat) returns (ret: int, nr: nat)
      requires Valid() && 0 < maxZones <= zones.Length
      modifies zones, `commands, `faults
      ensures ret <= 0 && (ret != 0 ==> nr == maxZones)
      ensures faults == old(faults) + if ret != 0 then 1 else 0
      ensures sector < Sectors() && Allocation(maxZones, true) == 0 ==> ret != 0
      ensures ret == 0 ==>
                var m := Matches(SectorTable(), sector, ro % 0x40);
                && nr == Min(maxZones, |m|) && zones[..nr] == m[..nr]
                && (eager && Roomy(backend, maxRwSectors, maxZones) ==>
                      commands - old(commands)
                        == CommandCount(nr, maxZones, DescriptorsPerCommand(maxRwSectors), Reached(sector, zones[..nr]),
                                        Sectors()))
    {
      hide And, Or, Matches, Contiguous, Geometry, DescriptorsPerCommand, Listing, Costs, CeilDiv, Roomy, Allocation;
      OptionMasks(ro);
      var option := And(ro, 0x3F);
      ret, nr := 0, 0;
      ghost var m, capacity := Matches(SectorTable(), sector, option), DescriptorsPerCommand(maxRwSectors);
      ghost var counted, lost := eager && Roomy(backend, maxRwSectors, maxZones), Allocation(maxZones, true) == 0;
      CapacityPositive(maxRwSectors);
      CostsStart(maxZones, |m|, capacity, sector, Sectors());
      assert zones[..0] == [];
      if sector >= Sectors() {
        TableContiguous();
        MatchesPast(SectorTable(), 0, Sectors(), sector, option);
        CostsMean(0, 0, maxZones, |m|, capacity, sector, Sectors());
        return;
      }
      var current: nat, more := sector, true;
      ListingStarts(SectorTable(), Sectors(), sector, option);
      while nr < maxZones && more
        invariant Valid() && ret == 0 && faults == old(faults) && 0 <= nr <= maxZones
        invariant (more ==> current < Sectors()) && (lost ==> nr == 0 && more)
        invariant Listing(SectorTable(), Sectors(), sector, option, current, zones[..nr], more)
        invariant counted ==> Costs(commands - old(commands), nr, maxZones, |m|, capacity, current, Sectors(), more)
        decreases maxZones - nr, more
      {
        var n, next, again;
        ret, n, next, again := NextPage(sector, option, current, zones, nr, maxZones, commands - old(commands));
        if ret != 0 {
          return ret, maxZones;
        }
        nr, current, more := nr + n, next, again;
      }
      ListingPrefix(SectorTable(), Sectors(), sector, option, current, zones[..nr], more);
      if counted {
        if more {
          CostsEnd(commands - old(commands), nr, maxZones, |m|, capacity, current, Sectors());
        }
        CostsMean(commands - old(commands), nr, maxZones, |m|, capacity, current, Sectors());
      }
    }

    /** `zbc_report_nr_zones`: the number of matching zones, from the list length of a full report. */
    method CountZones(sector: nat, ro: nat) returns (ret: int, nr: nat)
      requires Valid()
      modifies `commands, `faults
      ensures ret <= 0 && faults == old(faults) + if ret != 0 then 1 else 0
      ensures ret == 0 ==> nr == |Matches(SectorTable(), sector, ro % 0x40)|
      ensures commands == old(commands) + if sector < Sectors() then 1 else 0
    {
      hide And, Matches, Contiguous, Geometry, Allocation, Roomy;
      OptionMasks(ro);
      TableContiguous();
      if sector >= Sectors() {
        MatchesPast(SectorTable(), 0, Sectors(), sector, ro % 0x40);
        return 0, 0;
      }
      var none := new Zone[0];
      ret, nr := DriverReport(sector, And(ro, 0x3F), none, 0, 0, false);
    }

    /**
     * `zbc_list_zones`: every matching zone from the one containing the sector on, whatever pages the
     * drive chose, for either backend and from any sector, aligned to a logical block or not.
     */
    method ListZones(sector: nat, ro: nat) returns (ret: int, zones: array<Zone>)
      requires Valid()
      modifies `commands, `faults
      ensures faults == old(faults) + if ret != 0 then 1 else 0
      ensures ret == 0 ==> zones[..] == Matches(SectorTable(), sector, ro % 0x40)
      ensures ret == 0 ==> Listed(zones[..])
      ensures ret == 0 && eager && Roomy(backend, maxRwSectors, zones.Length) ==>
                commands - old(commands) == (if sector < Sectors() then 1 else 0)
                                          + CeilDiv(zones.Length, DescriptorsPerCommand(maxRwSectors))
    {
      hide And, Matches, Valid, SectorTable, CeilDiv, DescriptorsPerCommand, Sectors, Roomy, Listed;
      CapacityPositive(maxRwSectors);
      OptionMasks(ro);
      ret, zones := ListOption(sector, And(ro, 0x3F));
      MatchesListed(sector, ro % 0x40);
    }

    /** Each of the zones is one of the drive's, in sectors. */
    ghost predicate Listed(zones: seq<Zone>)
      reads `table
    {
      forall j :: 0 <= j < |zones| ==> exists i :: 0 <= i < |table| && InSectors(lblock, table[i], zones[j])
    }

    lemma MatchesListed(sector: nat, option: nat)
      requires Valid()
      ensures Listed(Matches(SectorTable(), sector, option))
    {
      hide Matches, InSectors, Import;
      var m := Matches(SectorTable(), sector, option);
      TableInSectors();
      forall j | 0 <= j < |m|
        ensures exists i :: 0 <= i < |table| && InSectors(lblock, table[i], m[j])
      {
        MatchesExactly(SectorTable(), sector, option, m[j]);
      }
    }

    /** The table in sectors, zone by zone. */
    lemma TableInSectors()
      requires Valid()
      ensures |SectorTable()| == |table|
      ensures forall i :: 0 <= i < |table| ==> InSectors(lblock, table[i], SectorTable()[i])
    {
      hide InSectors, Import;
      ContiguousBounds(table, 0, lbas);
      forall i | 0 <= i < |table|
        ensures InSectors(lblock, table[i], SectorTable()[i])
      {
        ImportedExactly(lblock, lbas, table[i]);
      }
    }

    /** Counts the zones that an option selects, and lists them. */
    method ListOption(sector: nat, option: nat) returns (ret: int, zones: array<Zone>)
      requires Valid() && option < 0x40
      modifies `commands, `faults
      ensures faults == old(faults) + if ret != 0 then 1 else 0
      ensures ret == 0 ==> zones[..] == Matches(SectorTable(), sector, option)
      ensures ret == 0 && eager && Roomy(backend, maxRwSectors, zones.Length) ==>
                commands - old(commands) == (if sector < Sectors() then 1 else 0)
                                          + CeilDiv(zones.Length, DescriptorsPerCommand(maxRwSectors))
    {
      hide Matches, Valid, SectorTable, CeilDiv, DescriptorsPerCommand, Sectors, Roomy;
      var nr;
      CapacityPositive(maxRwSectors);
      ret, nr := CountZones(sector, option);
      if ret == 0 && nr > 0 {
        ret, zones := FillZones(sector, option, nr);
      } else {
        CeilDivUnique(0, DescriptorsPerCommand(maxRwSectors), 0);
        zones := new Zone[0];
      }
    }

    /** The array for the zones counted, and the report that fills it. */
    method FillZones(sector: nat, option: nat, nr: nat) returns (ret: int, zones: array<Zone>)
      requires Valid() && option < 0x40 && nr > 0 && nr == |Matches(SectorTable(), sector, option)|
      modifies `commands, `faults
      ensures faults == old(faults) + if ret != 0 then 1 else 0
      ensures ret == 0 ==> zones[..] == Matches(SectorTable(), sector, option)
      ensures ret == 0 && eager && Roomy(backend, maxRwSectors, zones.Length) ==>
                commands - old(commands) == CeilDiv(zones.Length, DescriptorsPerCommand(maxRwSectors))
    {
      hide Matches, Valid, SectorTable, CeilDiv, DescriptorsPerCommand, CommandCount, Reached, Sectors, Roomy, Allocation;
      var none := Zone(0, 0, 0, 0, 0, 0);
      CapacityPositive(maxRwSectors);
      zones := new Zone[nr](_ => none);
      var n;
      ret, n := ReportZones(sector, option, zones, nr);
      if ret == 0 {
        assert zones[..n] == zones[..];
        FullArrayCount(nr, DescriptorsPerCommand(maxRwSectors), Reached(sector, zones[..n]), Sectors());
      }
    }
  }

  lemma {:induction false} MatchesEncodable(zones: seq<Zone>, lba: nat, option: nat)
    requires AllEncodable(zones)
    ensures AllEncodable(Matches(zones, lba, option)) && |Matches(zones, lba, option)| <= |zones|
  {
    if zones != [] {
      MatchesEncodable(zones[1..], lba, option);
    }
  }

  lemma ImportPrefix(lblock: nat, zones: seq<Zone>, n: nat)
    requires n <= |zones|
    ensures ImportAll(lblock, zones[..n]) == ImportAll(lblock, zones)[..n]
  {
  }

  /** The start block reaches the drive unchanged. */
  lemma LbaArrives(backend: Backend, lblock: nat, lbas: nat, sector: nat)
    requires Geometry(lblock, lbas) && sector < lbas * (lblock / 512)
    requires backend == Ata ==> lbas <= 0x1_0000_0000_0000
    ensures var lba := SectorToLba(lblock, sector);
            lba < lbas && lba % Pow256(if backend == Scsi then 8 else 6) == lba
  {
    hide SectorToLba;
    Powers256();
    SectorScales(lblock, lbas, sector);
    QuotientLess(sector, lblock / 512, lbas);
    MulMonotone(1, lblock, lbas);
  }
}
