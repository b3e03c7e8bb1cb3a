/** What holds of every run of commands that a vectored read or write can issue. */
module IoRuns {
  import opened Bits
  import opened IoVector
  import opened IoVectorProofs
  import opened VectorIo

  /**
   * Exactly when a command of a run stays within the pages and the sectors that the device accepts:
   * unless a count of pages wraps around 32 bits to one that fits.
   */
  lemma CommandsWithinLimits(info: DeviceInfo, iov: seq<Iovec>, offset: nat, count: nat, run: seq<Command>, k: nat)
    requires Run(run, info, iov, offset, count) && k < |run|
    requires PageBudget(info.maxRwSectors, info.page) + |iov| < 0x1_0000_0000
    ensures var done, budget := Done(run[..k]), PageBudget(info.maxRwSectors, info.page);
            && done < count
            && (TotalPagesTouched(run[k].iov, info.page) <= budget <==>
                  CountDetects(Peak(iov, done * 512, (count - done) * 512, 0, budget, info.page), budget))
            && (TotalPagesTouched(run[k].iov, info.page) <= budget ==> run[k].sectors <= info.maxRwSectors)
  {
    hide Run, Done, ConvertRequest, TotalPagesTouched, PageBudget, Peak;
    RunPrefix(info, iov, offset, count, run, k);
    var done := Done(run[..k]);
    CommandWithinDeviceLimit(iov, done, count - done, info.maxRwSectors, info.page);
    RequestLength(iov, done, count - done, info.maxRwSectors, info.page);
  }

  /** Requests of less than 2^32 pages, less the budget, keep every command within the limits. */
  lemma SmallRequestsWithinLimits(info: DeviceInfo, iov: seq<Iovec>, offset: nat, count: nat, run: seq<Command>, k: nat)
    requires Run(run, info, iov, offset, count) && k < |run|
    requires NoPageOverflow(count * 512, PageBudget(info.maxRwSectors, info.page) + |iov|, info.page)
    ensures TotalPagesTouched(run[k].iov, info.page) <= PageBudget(info.maxRwSectors, info.page)
    ensures run[k].sectors <= info.maxRwSectors
  {
    hide Run, Done, ConvertRequest, TotalPagesTouched, PageBudget, Peak;
    var done, budget := Done(run[..k]), PageBudget(info.maxRwSectors, info.page);
    QuotientMonotone(0, count * 512, info.page);
    CommandsWithinLimits(info, iov, offset, count, run, k);
    QuotientMonotone((count - done) * 512, count * 512, info.page);
    PeakBound(iov, done * 512, (count - done) * 512, 0, budget, info.page);
  }

  lemma RequestLength(iov: seq<Iovec>, done: nat, sectors: nat, maxSectors: nat, page: PageSize)
    ensures var chunk := ConvertRequest(iov, done, sectors, maxSectors, page);
            chunk.bytes == TotalLength(chunk.out)
  {
    ConvertLength(iov, done * 512, sectors * 512, 0, PageBudget(maxSectors, page), page);
  }

  /**
   * Every command asks for something, and asks for all that is left or spends the whole page budget,
   * if the device takes two pages, or one page and the next byte starts a page.
   */
  lemma CommandsMakeProgress(info: DeviceInfo, iov: seq<Iovec>, offset: nat, count: nat, run: seq<Command>, k: nat)
    requires Run(run, info, iov, offset, count) && k < |run| && count * 512 <= |Addresses(iov, 512)|
    ensures var done, budget := Done(run[..k]), PageBudget(info.maxRwSectors, info.page);
            && done < count
            && (run[k].sectors == 0 <==>
                  (budget == 0 || (budget == 1 && Addresses(iov, 512)[done * 512] % info.page != 0
                                   && CountDetects(FirstNeed(iov, done * 512, (count - done) * 512, info.page), 1))))
            && (run[k].sectors == count - done
                || ConvertRequest(iov, done, count - done, info.maxRwSectors, info.page).pages == budget)
  {
    hide Run, Done, PageBudget, Convert, Addresses, FirstNeed;
    RunPrefix(info, iov, offset, count, run, k);
    var done, budget := Done(run[..k]), PageBudget(info.maxRwSectors, info.page);
    BudgetWord(info.maxRwSectors, info.page);
    ConvertProgress(iov, done * 512, (count - done) * 512, budget, info.page);
    ConvertFinishesOrFills(iov, done * 512, (count - done) * 512, 0, budget, info.page);
    ChunkCovers(info, iov, done, count);
  }

  lemma BudgetWord(maxSectors: nat, page: PageSize)
    ensures PageBudget(maxSectors, page) < 0x1_0000_0000
  {
  }

  // ---------------------------------------------------------------------------------------------
  // Block alignment
  // ---------------------------------------------------------------------------------------------

  /** The driver completed whole blocks. */
  predicate WholeBlocks(run: seq<Command>, block: nat)
    requires block > 0
  {
    forall k :: 0 <= k < |run| && run[k].ret > 0 ==> run[k].ret * 512 % block == 0
  }

  lemma {:induction false} DoneAligned(run: seq<Command>, block: nat)
    requires block > 0 && WholeBlocks(run, block)
    ensures Done(run) * 512 % block == 0
  {
    if run != [] {
      var n := |run| - 1;
      DoneAligned(run[..n], block);
      if run[n].ret > 0 {
        MultipleSum(Done(run[..n]) * 512, run[n].ret * 512, block);
      }
    }
  }

  /** With aligned buffers, every command starts on a block boundary, and ends on one or at the end. */
  lemma CommandsAligned(info: DeviceInfo, iov: seq<Iovec>, offset: nat, count: nat, run: seq<Command>, k: nat, block: nat)
    requires Run(run, info, iov, offset, count) && k < |run|
    requires BlockSize(block, info.page) && BuffersAligned(iov, block)
    requires offset * 512 % block == 0 && WholeBlocks(run, block) && count * 512 <= |Addresses(iov, 512)|
    ensures run[k].sector * 512 % block == 0
    ensures var end := run[k].sector + run[k].sectors;
            end == offset + count || end * 512 % block == 0
  {
    hide Run, Done, Convert, Addresses, BuffersAligned;
    RunPrefix(info, iov, offset, count, run, k);
    var done, c := Done(run[..k]), run[k];
    assert WholeBlocks(run[..k], block);
    DoneAligned(run[..k], block);
    MultipleSum(offset * 512, done * 512, block);
    ConvertAligned(iov, done * 512, (count - done) * 512, 0, PageBudget(info.maxRwSectors, info.page), block, info.page);
    ChunkCovers(info, iov, done, count);
    if c.sectors * 512 % block == 0 {
      MultipleSum(c.sector * 512, c.sectors * 512, block);
    }
  }

  // ---------------------------------------------------------------------------------------------
  // The number of commands
  // ---------------------------------------------------------------------------------------------

  /** The driver completed everything that it was asked for. */
  predicate AllComplete(run: seq<Command>) {
    forall k :: 0 <= k < |run| ==> run[k].ret == run[k].sectors
  }

  /** The bytes that one command moves from a single buffer at `base`. */
  function ChunkSize(base: nat, budget: nat, page: PageSize): nat
    requires budget > 0
  {
    (if base % page == 0 then budget else budget - 1) * page
  }

  lemma SingleBufferChunk(base: nat, whole: nat, done: nat, count: nat, maxSectors: nat, page: PageSize)
    requires done < count <= whole && NoPageOverflow(count * 512, PageBudget(maxSectors, page), page)
    requires PageBudget(maxSectors, page) > 0
    ensures ConvertRequest([Iovec(base, whole)], done, count - done, maxSectors, page).bytes
         == Min((count - done) * 512, ChunkSize(base + done * 512, PageBudget(maxSectors, page), page))
  {
    hide Cut, PagesNeeded, PageRoom, PageBudget, ChunkSize;
    var budget, at, left := PageBudget(maxSectors, page), base + done * 512, (count - done) * 512;
    QuotientMonotone(left, count * 512, page);
    NeedWithin(at, left, left, page);
    CutByNeed(at, left, 0, budget, page);
    RoomIsChunk(at, left, budget, page);
    var iov, piece := [Iovec(base, whole)], Cut(at, left, 0, budget, page);
    assert Min(whole * 512 - done * 512, left) == left;
    assert iov[1..] == [];
    assert Convert(iov, done * 512, left, 0, budget, page).bytes == piece.length;
  }

  lemma RoomIsChunk(at: nat, left: nat, budget: nat, page: PageSize)
    requires budget > 0
    ensures PageRoom(at, budget, page) == ChunkSize(at, budget, page)
    ensures PagesNeeded(at, left, page) <= budget ==> left <= ChunkSize(at, budget, page)
  {
    ChargeIsNeed(at, left, page);
    if PagesNeeded(at, left, page) <= budget {
      var room := if at % page == 0 then budget else budget - 1;
      CeilDivBounds(left, page);
      MulMonotone(CeilDiv(left, page), room, page);
    }
  }

  /** Moving on by whole chunks keeps the place within a page. */
  lemma ChunkRepeats(base: nat, j: nat, budget: nat, page: PageSize)
    requires budget > 0
    ensures ChunkSize(base + j * ChunkSize(base, budget, page), budget, page) == ChunkSize(base, budget, page)
  {
    var q, r := Quotient(base, page);
    var m := if base % page == 0 then budget else budget - 1;
    assert base + j * (m * page) == (q + j * m) * page + r;
    DivModUnique(base + j * (m * page), page, q + j * m, r);
  }

  lemma {:induction false} CompleteCommandsAdvance(info: DeviceInfo, base: nat, whole: nat, offset: nat, count: nat,
                                                   run: seq<Command>)
    requires Run(run, info, [Iovec(base, whole)], offset, count) && AllComplete(run) && count <= whole
    requires PageBudget(info.maxRwSectors, info.page) > 0
    requires NoPageOverflow(count * 512, PageBudget(info.maxRwSectors, info.page), info.page)
    ensures var chunk := ChunkSize(base, PageBudget(info.maxRwSectors, info.page), info.page);
            && Done(run) * 512 == Min(|run| * chunk, count * 512)
            && (|run| > 0 ==> (|run| - 1) * chunk < count * 512)
  {
    hide ConvertRequest, ChunkSize, PageBudget, NoPageOverflow;
    var budget := PageBudget(info.maxRwSectors, info.page);
    if run != [] {
      var n := |run| - 1;
      CompleteCommandsAdvance(info, base, whole, offset, count, run[..n]);
      var done := Done(run[..n]);
      SingleBufferChunk(base, whole, done, count, info.maxRwSectors, info.page);
      ChunkRepeats(base, n, budget, info.page);
      SectorChunk(base, budget, info.page);
      OneMoreChunk(done, run[n].sectors, n, ChunkSize(base, budget, info.page), count);
    }
  }

  lemma OneMoreChunk(done: nat, sectors: nat, n: nat, chunk: nat, count: nat)
    requires done < count && chunk % 512 == 0 && done * 512 == Min(n * chunk, count * 512)
    requires sectors == Min((count - done) * 512, chunk) / 512
    ensures (done + sectors) * 512 == Min((n + 1) * chunk, count * 512) && n * chunk < count * 512
  {
    assert (n + 1) * chunk == n * chunk + chunk;
  }

  lemma SectorChunk(base: nat, budget: nat, page: PageSize)
    requires budget > 0
    ensures ChunkSize(base, budget, page) % 512 == 0
  {
    SectorMultiple(if base % page == 0 then budget else budget - 1, page);
  }

  /**
   * The exact cost of a completed request on one buffer: as many commands as chunks of the whole
   * budget cover it, where a buffer that does not start a page loses one page of every command.
   */
  lemma SingleBufferCommands(info: DeviceInfo, base: nat, whole: nat, offset: nat, count: nat, run: seq<Command>)
    requires Run(run, info, [Iovec(base, whole)], offset, count) && AllComplete(run)
    requires 0 < count <= whole && Done(run) == count
    requires NoPageOverflow(count * 512, PageBudget(info.maxRwSectors, info.page), info.page)
    requires PageBudget(info.maxRwSectors, info.page) >= 2
             || (PageBudget(info.maxRwSectors, info.page) == 1 && base % info.page == 0)
    ensures var budget := PageBudget(info.maxRwSectors, info.page);
            var pages := if base % info.page == 0 then budget else budget - 1;
            pages * info.page > 0 && |run| == CeilDiv(count * 512, pages * info.page)
  {
    hide ConvertRequest, PageBudget, Run, Done;
    var budget := PageBudget(info.maxRwSectors, info.page);
    var chunk := ChunkSize(base, budget, info.page);
    CompleteCommandsAdvance(info, base, whole, offset, count, run);
    MulGrows(if base % info.page == 0 then budget else budget - 1, info.page);
    assert |run| > 0;
    assert |run| * chunk == (|run| - 1) * chunk + chunk;
    CeilDivUnique(count * 512, chunk, |run|);
  }

  /**
   * On a buffer that starts a page, and a device whose largest transfer is a whole number of pages, every
   * command but the last moves the largest transfer.
   */
  lemma AlignedBufferCommands(info: DeviceInfo, base: nat, whole: nat, offset: nat, count: nat, run: seq<Command>)
    requires Run(run, info, [Iovec(base, whole)], offset, count) && AllComplete(run)
    requires 0 < count <= whole && Done(run) == count && base % info.page == 0
    requires 0 < info.maxRwSectors < 0x1_0000_0000 && info.maxRwSectors * 512 % info.page == 0
    requires NoPageOverflow(count * 512, info.maxRwSectors * 512 / info.page, info.page)
    ensures |run| == CeilDiv(count, info.maxRwSectors)
  {
    hide Run, Done, PageBudget;
    var max, page, budget := info.maxRwSectors, info.page, PageBudget(info.maxRwSectors, info.page);
    BudgetIsQuotient(max, page);
    var q, r := Quotient(max * 512, page);
    assert (q + 1) * page == q * page + page;
    BetweenMultiples(q, budget, page);
    SingleBufferCommands(info, base, whole, offset, count, run);
    CeilDivScales(count, max, 512);
  }

  lemma BetweenMultiples(q: nat, budget: nat, page: nat)
    requires page > 0 && budget * page <= q * page < (budget + 1) * page
    ensures q == budget
  {
    assert (q + 1) * page == q * page + page;
    if q < budget {
      MulMonotone(q + 1, budget, page);
    } else if q > budget {
      MulMonotone(budget + 1, q, page);
    }
  }

  lemma CeilDivScales(x: nat, n: nat, k: nat)
    requires n > 0 && k > 0
    ensures n * k > 0 && CeilDiv(x * k, n * k) == CeilDiv(x, n)
  {
    hide CeilDiv;
    var c := CeilDiv(x, n);
    CeilDivBounds(x, n);
    MulGrows(n, k);
    MulMonotone(x, c * n, k);
    MulMonotone(c * n + 1, x + n, k);
    Associates(c, n, k);
    Distributes(c * n, 1, k);
    Distributes(x, n, k);
    CeilDivUnique(x * k, n * k, c);
  }

  lemma Associates(c: nat, n: nat, k: nat)
    ensures c * n * k == c * (n * k)
  {
  }

  /**
   * The cost of complete commands on any vector: while the request is not done, each of them spent the
   * whole budget, of which every entry wastes at most two pages, and entries begin with a command or with
   * a buffer.
   */
  lemma {:induction false} UnfinishedCommands(info: DeviceInfo, iov: seq<Iovec>, offset: nat, count: nat, run: seq<Command>)
    requires Run(run, info, iov, offset, count) && AllComplete(run)
    requires count * 512 <= |Addresses(iov, 512)| && Done(run) < count
    ensures |run| * PageBudget(info.maxRwSectors, info.page) * info.page
         <= Done(run) * 512 + 2 * (Ended(iov, Done(run) * 512) + |run|) * info.page
  {
    hide Convert, Addresses, PageBudget, Ended;
    if run != [] {
      var n, budget := |run| - 1, PageBudget(info.maxRwSectors, info.page);
      var done, c := Done(run[..n]), run[n];
      UnfinishedCommands(info, iov, offset, count, run[..n]);
      BudgetWord(info.maxRwSectors, info.page);
      ChunkCovers(info, iov, done, count);
      ConvertFinishesOrFills(iov, done * 512, (count - done) * 512, 0, budget, info.page);
      ChargedIsMoved(iov, done * 512, (count - done) * 512, 0, budget, info.page);
      EntriesEndBuffers(iov, done * 512, (count - done) * 512, 0, budget, info.page);
      AddCommand(n, budget, info.page, done * 512, c.sectors * 512, Ended(iov, done * 512), |c.iov|,
                 Ended(iov, Done(run) * 512));
    }
  }

  lemma AddCommand(n: nat, budget: nat, page: nat, done: nat, moved: nat, ended: nat, entries: nat, after: nat)
    requires n * budget * page <= done + 2 * (ended + n) * page
    requires budget * page <= moved + 2 * entries * page && ended + entries <= after + 1
    ensures (n + 1) * budget * page <= done + moved + 2 * (after + (n + 1)) * page
  {
    assert (n + 1) * budget * page == n * budget * page + budget * page;
    assert 2 * (ended + n) * page + 2 * entries * page == 2 * (ended + entries + n) * page;
    MulMonotone(2 * (ended + entries + n), 2 * (after + (n + 1)), page);
  }

  /** A request on any vector needs few commands: all but the last move the budget, less two pages for each entry. */
  lemma VectorCommands(info: DeviceInfo, iov: seq<Iovec>, offset: nat, count: nat, run: seq<Command>)
    requires Run(run, info, iov, offset, count) && AllComplete(run) && run != []
    requires count * 512 <= |Addresses(iov, 512)|
    ensures (|run| - 1) * (PageBudget(info.maxRwSectors, info.page) - 2) * info.page < count * 512 + 2 * |iov| * info.page
  {
    hide Addresses, PageBudget, ConvertRequest;
    var n := |run| - 1;
    UnfinishedCommands(info, iov, offset, count, run[..n]);
    AllButLast(n, PageBudget(info.maxRwSectors, info.page), info.page, Done(run[..n]) * 512,
               Ended(iov, Done(run[..n]) * 512), |iov|);
  }

  lemma AllButLast(n: nat, budget: nat, page: nat, done: nat, ended: nat, buffers: nat)
    requires n * budget * page <= done + 2 * (ended + n) * page && ended <= buffers
    ensures n * (budget - 2) * page <= done + 2 * buffers * page
  {
    assert n * (budget - 2) * page == n * budget * page - 2 * n * page;
    assert 2 * (ended + n) * page == 2 * ended * page + 2 * n * page;
    MulMonotone(2 * ended, 2 * buffers, page);
  }
}
