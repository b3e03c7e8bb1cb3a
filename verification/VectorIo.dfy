/**
 * Vectored reads and writes of lib/zbc.c: one request is cut into commands that fit the device, and
 * each command may complete any part of what it was given.
 */
module VectorIo {
  import opened Bits
  import opened Errors
  import opened IoVector
  import opened IoVectorProofs

  const SSIZE_MAX: nat := 0x7FFF_FFFF_FFFF_FFFF

  /** The sectors that 64-bit byte counts can express. */
  const MAX_SECTORS: nat := 0x80_0000_0000_0000

  /** The device information that shapes an I/O request. Sizes of blocks are in bytes. */
  datatype DeviceInfo = DeviceInfo(sectors: nat, lblockSize: nat, pblockSize: nat, maxRwSectors: nat,
                                   page: PageSize, testMode: bool)
  {
    /** Block sizes are powers of two of 32 bits; the capacity in bytes fits in 64 bits. */
    predicate Valid() {
      && 0 < lblockSize < 0x1_0000_0000 && PowerOfTwo(lblockSize)
      && 0 < pblockSize < 0x1_0000_0000 && PowerOfTwo(pblockSize)
      && sectors * 512 < 0x1_0000_0000_0000_0000
    }
  }

  // ---------------------------------------------------------------------------------------------
  // Admission of a request
  // ---------------------------------------------------------------------------------------------

  datatype Admission = Refused(error: int) | Nothing | Admitted(count: nat)

  /** The checks before the first command, on a request of `count` sectors at `offset`. */
  function Admit(info: DeviceInfo, block: nat, count: u64, offset: u64): Admission
    requires block > 0
  {
    if U64(count * 512) > SSIZE_MAX then Refused(-EINVAL)
    else if info.testMode then
      if count == 0 then Refused(-EINVAL) else Admitted(count)
    else if !SectorAligned(count, block) || !SectorAligned(offset, block) then Refused(-EIO)
    else
      var clipped := if U64(offset + count) > info.sectors then U64(info.sectors + 0x1_0000_0000_0000_0000 - offset)
                     else count;
      if clipped == 0 || offset >= info.sectors then Nothing else Admitted(clipped)
  }

  /**
   * The documented admission: what is left of an aligned request at the capacity; or, in test mode, any
   * request that is not empty.
   */
  function Clipped(info: DeviceInfo, block: nat, count: nat, offset: nat): Admission
    requires block > 0
  {
    if count * 512 > SSIZE_MAX then Refused(-EINVAL)
    else if info.testMode then
      if count > 0 then Admitted(count) else Refused(-EINVAL)
    else if count * 512 % block != 0 || offset * 512 % block != 0 then Refused(-EIO)
    else if count == 0 || offset >= info.sectors then Nothing
    else Admitted(Min(count, info.sectors - offset))
  }

  /**
   * Requests are refused or clipped to the capacity as documented, even when their end wraps around 64
   * bits, exactly unless their size is too large and its 64-bit count of bytes is not.
   */
  lemma AdmitClipsExactly(info: DeviceInfo, block: nat, count: u64, offset: u64)
    requires info.Valid() && PowerOfTwo(block) && block < 0x1_0000_0000
    ensures Admit(info, block, count, offset) == Clipped(info, block, count, offset)
       <==> (count * 512 <= SSIZE_MAX || U64(count * 512) > SSIZE_MAX)
  {
    hide And, SectorAligned;
    SectorAlignedExactly(count, block);
    SectorAlignedExactly(offset, block);
    if offset < info.sectors && count * 512 <= SSIZE_MAX {
      EndClipped(info.sectors, count, offset);
    }
  }

  /** The 64-bit arithmetic of the clipping. */
  lemma EndClipped(sectors: nat, count: nat, offset: u64)
    requires sectors < MAX_SECTORS && count < MAX_SECTORS && offset < sectors
    ensures (if U64(offset + count) > sectors then U64(sectors + 0x1_0000_0000_0000_0000 - offset) else count)
         == Min(count, sectors - offset)
  {
  }

  /** A concrete case: 2^55 sectors are 2^64 bytes, which count as none, and are clipped instead of refused. */
  lemma LargeRequestAdmitted(info: DeviceInfo)
    requires info.Valid() && !info.testMode && info.sectors > 0
    ensures Admit(info, 512, MAX_SECTORS, 0) == Admitted(info.sectors)
    ensures Clipped(info, 512, MAX_SECTORS, 0) == Refused(-EINVAL)
  {
    hide And;
    SectorAlignedExactly(MAX_SECTORS, 512);
    SectorAlignedExactly(0, 512);
  }

  lemma AdmittedWithin(info: DeviceInfo, block: nat, count: u64, offset: u64)
    requires info.Valid() && block > 0
    ensures var a := Admit(info, block, count, offset);
            a.Admitted? ==>
              0 < a.count <= count && (!info.testMode && count < MAX_SECTORS ==> offset + a.count <= info.sectors)
    ensures var a := Admit(info, block, count, offset);
            a.Refused? ==> a.error < 0
  {
    hide And;
  }

  // ---------------------------------------------------------------------------------------------
  // Runs of commands
  // ---------------------------------------------------------------------------------------------

  /** One command: where and what it transfers, the write pointer it meets, and the driver's answer. */
  datatype Command = Command(sector: nat, iov: seq<Iovec>, sectors: nat, pointer: nat, ret: int)

  /** The sectors that a list of commands completed. */
  function Done(commands: seq<Command>): nat {
    if commands == [] then 0
    else
      var last := commands[|commands| - 1];
      Done(commands[..|commands| - 1]) + (if last.ret > 0 then last.ret else 0)
  }

  /**
   * The commands of one request: each converts what the previous ones left, starts where they
   * stopped, and follows only a command that made progress.
   */
  predicate Run(commands: seq<Command>, info: DeviceInfo, iov: seq<Iovec>, offset: nat, count: nat) {
    commands == []
    || (var n := |commands| - 1;
        && Run(commands[..n], info, iov, offset, count)
        && (n > 0 ==> commands[n - 1].ret > 0)
        && Next(commands[n], Done(commands[..n]), info, iov, offset, count))
  }

  predicate Next(c: Command, done: nat, info: DeviceInfo, iov: seq<Iovec>, offset: nat, count: nat) {
    && done < count
    && var chunk := ConvertRequest(iov, done, count - done, info.maxRwSectors, info.page);
    && c.sector == offset + done
    && c.iov == chunk.out
    && c.sectors == chunk.bytes / 512
    && c.ret <= c.sectors
  }

  /** What the caller gets: the whole count, or the error of the command that did not progress. */
  predicate Outcome(run: seq<Command>, count: nat, ret: int) {
    if Done(run) == count then ret == count
    else
      && Done(run) < count && run != []
      && var last := run[|run| - 1].ret;
      last <= 0 && ret == if last < 0 then last else -EIO
  }

  lemma RunExtends(run: seq<Command>, c: Command, info: DeviceInfo, iov: seq<Iovec>, offset: nat, count: nat)
    requires Run(run, info, iov, offset, count) && Progressing(run)
    requires Next(c, Done(run), info, iov, offset, count)
    ensures Run(run + [c], info, iov, offset, count)
    ensures Done(run + [c]) == Done(run) + (if c.ret > 0 then c.ret else 0)
  {
    assert (run + [c])[..|run|] == run;
  }

  predicate Progressing(run: seq<Command>) {
    |run| > 0 ==> run[|run| - 1].ret > 0
  }

  /** What the next command covers: whole sectors of the request, from where it stands. */
  lemma ChunkCovers(info: DeviceInfo, iov: seq<Iovec>, done: nat, count: nat)
    requires done < count && count * 512 <= |Addresses(iov, 512)|
    ensures var chunk := ConvertRequest(iov, done, count - done, info.maxRwSectors, info.page);
            && chunk.bytes % 512 == 0 && done * 512 + chunk.bytes <= count * 512
            && TotalLength(chunk.out) == chunk.bytes
            && Addresses(chunk.out, 1) == Addresses(iov, 512)[done * 512..done * 512 + chunk.bytes]
  {
    hide Convert, Addresses, TotalLength;
    var budget := PageBudget(info.maxRwSectors, info.page);
    ConvertSlices(iov, done * 512, (count - done) * 512, 0, budget, info.page);
    ConvertLength(iov, done * 512, (count - done) * 512, 0, budget, info.page);
  }

  // ---------------------------------------------------------------------------------------------
  // Memory and disk
  // ---------------------------------------------------------------------------------------------

  predicate InMemory(addresses: seq<nat>, size: nat) {
    forall k :: 0 <= k < |addresses| ==> addresses[k] < size
  }

  function Gather(mem: seq<byte>, addresses: seq<nat>): (data: seq<byte>)
    requires InMemory(addresses, |mem|)
    ensures |data| == |addresses|
  {
    seq(|addresses|, k requires 0 <= k < |addresses| => mem[addresses[k]])
  }

  /** The first `n` addresses hold the bytes of the disk from `sector` on, unless addresses repeat. */
  predicate Delivered(mem: seq<byte>, addresses: seq<nat>, n: nat, disk: seq<byte>, sector: nat) {
    && InMemory(addresses, |mem|) && n <= |addresses| && (n > 0 ==> sector * 512 + n <= |disk|)
    && (Distinct(addresses) ==> forall k :: 0 <= k < n ==> mem[addresses[k]] == disk[sector * 512 + k])
  }

  predicate SameOutside(before: seq<byte>, after: seq<byte>, addresses: seq<nat>) {
    && |before| == |after|
    && forall a :: 0 <= a < |before| && a !in addresses ==> after[a] == before[a]
  }

  lemma SameOutsideExtends(first: seq<byte>, before: seq<byte>, after: seq<byte>, buffers: seq<nat>, lo: nat, hi: nat,
                          end: nat)
    requires lo <= hi <= end <= |buffers|
    requires SameOutside(first, before, buffers[..end]) && SameOutside(before, after, buffers[lo..hi])
    ensures SameOutside(first, after, buffers[..end])
  {
    assert buffers[..end] == buffers[..lo] + buffers[lo..hi] + buffers[hi..end];
  }

  lemma DeliveredExtends(before: seq<byte>, after: seq<byte>, buffers: seq<nat>, done: nat, hi: nat, more: nat,
                         disk: seq<byte>, offset: nat)
    requires done * 512 + more * 512 <= hi <= |buffers|
    requires Delivered(before, buffers, done * 512, disk, offset)
    requires SameOutside(before, after, buffers[done * 512..hi])
    requires more > 0 ==> Delivered(after, buffers[done * 512..hi], more * 512, disk, offset + done)
    ensures Delivered(after, buffers, (done + more) * 512, disk, offset)
  {
    var chunk := buffers[done * 512..hi];
    assert InMemory(buffers, |after|);
    if Distinct(buffers) {
      assert Distinct(chunk);
      forall k | 0 <= k < (done + more) * 512
        ensures after[buffers[k]] == disk[offset * 512 + k]
      {
        if k < done * 512 {
          assert after[buffers[k]] == before[buffers[k]] by {
            assert forall j :: 0 <= j < |chunk| ==> chunk[j] == buffers[done * 512 + j];
          }
        } else {
          assert buffers[k] == chunk[k - done * 512];
        }
      }
    }
  }

  /**
   * The state of a read of `count` sectors after the commands of `run`: they completed a prefix, it
   * holds the bytes of the disk if no two buffers overlap, and no other memory changed.
   */
  predicate ReadState(info: DeviceInfo, iov: seq<Iovec>, offset: nat, count: nat, disk: seq<byte>,
                      first: seq<byte>, now: seq<byte>, run: seq<Command>)
  {
    var buffers := Addresses(iov, 512);
    && count * 512 <= |buffers|
    && Run(run, info, iov, offset, count) && Done(run) <= count
    && SameOutside(first, now, buffers[..count * 512])
    && Delivered(now, buffers, Done(run) * 512, disk, offset)
  }

  lemma ReadStarts(info: DeviceInfo, iov: seq<Iovec>, offset: nat, count: nat, disk: seq<byte>, mem: seq<byte>)
    requires count * 512 <= |Addresses(iov, 512)| && InMemory(Addresses(iov, 512), |mem|)
    ensures ReadState(info, iov, offset, count, disk, mem, mem, []) && Done([]) == 0
  {
  }

  lemma ReadStateRuns(info: DeviceInfo, iov: seq<Iovec>, offset: nat, count: nat, disk: seq<byte>,
                      first: seq<byte>, now: seq<byte>, run: seq<Command>)
    requires ReadState(info, iov, offset, count, disk, first, now, run)
    ensures Run(run, info, iov, offset, count) && Done(run) <= count
    ensures count * 512 <= |Addresses(iov, 512)| && InMemory(Addresses(iov, 512), |now|)
  {
  }

  /** A request that is admitted issues a command, and the first of them at its offset. */
  lemma FirstCommand(info: DeviceInfo, iov: seq<Iovec>, offset: nat, count: nat, run: seq<Command>, ret: int)
    requires Run(run, info, iov, offset, count) && Outcome(run, count, ret) && count > 0
    ensures run != [] && run[0].sector == offset
    ensures run[0].iov == ConvertRequest(iov, 0, count, info.maxRwSectors, info.page).out
  {
    hide ConvertRequest;
    RunPrefix(info, iov, offset, count, run, 0);
  }

  /** What the state and the outcome of a read say byte by byte. */
  lemma ReadMeans(info: DeviceInfo, iov: seq<Iovec>, offset: nat, count: nat, disk: seq<byte>,
                  first: seq<byte>, now: seq<byte>, run: seq<Command>, ret: int)
    requires ReadState(info, iov, offset, count, disk, first, now, run) && Outcome(run, count, ret)
    ensures var buffers := Addresses(iov, 512);
            && |now| == |first| && InMemory(buffers, |now|)
            && (forall a :: 0 <= a < |now| && a !in buffers ==> now[a] == first[a])
            && (ret > 0 ==>
                  && ret == count && count * 512 <= |buffers| && (offset + ret) * 512 <= |disk|
                  && (Distinct(buffers) ==>
                        forall k :: 0 <= k < ret * 512 ==> now[buffers[k]] == disk[offset * 512 + k]))
  {
    hide Run, Done, Addresses;
    var buffers := Addresses(iov, 512);
    assert forall a :: a in buffers[..count * 512] ==> a in buffers;
  }

  /** What the state of a write says byte by byte. */
  lemma WriteMeans(info: DeviceInfo, iov: seq<Iovec>, offset: nat, count: nat, mem: seq<byte>, first: seq<byte>,
                   now: seq<byte>, firstPointer: nat, pointer: nat, run: seq<Command>)
    requires InMemory(Addresses(iov, 512), |mem|)
    requires WriteState(info, iov, offset, count, Gather(mem, Addresses(iov, 512)), first, now, firstPointer, pointer, run)
    ensures |now| == |first| && firstPointer <= pointer <= firstPointer + count && count * 512 <= |Addresses(iov, 512)|
    ensures pointer > firstPointer ==> offset == firstPointer
    ensures forall b :: 0 <= b < |now| ==>
              now[b] == if firstPointer * 512 <= b < pointer * 512 then mem[Addresses(iov, 512)[b - firstPointer * 512]]
                        else first[b]
  {
    hide Run, Done, Addresses;
  }

  /** One more command: it touches only its own chunk, and completes `c.ret` sectors of it. */
  lemma ReadContinues(info: DeviceInfo, iov: seq<Iovec>, offset: nat, count: nat, disk: seq<byte>,
                      first: seq<byte>, before: seq<byte>, after: seq<byte>, run: seq<Command>, c: Command)
    requires ReadState(info, iov, offset, count, disk, first, before, run)
    requires Progressing(run) && Next(c, Done(run), info, iov, offset, count)
    requires SameOutside(before, after, Addresses(c.iov, 1))
    requires c.ret > 0 ==> c.sector + c.ret <= info.sectors
    requires c.ret > 0 ==> Delivered(after, Addresses(c.iov, 1), c.ret * 512, disk, c.sector)
    ensures ReadState(info, iov, offset, count, disk, first, after, run + [c])
    ensures Done(run + [c]) == Done(run) + (if c.ret > 0 then c.ret else 0) <= count
  {
    hide Addresses, ConvertRequest, Run, Done, Delivered, SameOutside;
    var buffers, done, more := Addresses(iov, 512), Done(run), if c.ret > 0 then c.ret else 0;
    ChunkCovers(info, iov, done, count);
    var hi := done * 512 + ConvertRequest(iov, done, count - done, info.maxRwSectors, info.page).bytes;
    RunExtends(run, c, info, iov, offset, count);
    SameOutsideExtends(first, before, after, buffers, done * 512, hi, count * 512);
    DeliveredExtends(before, after, buffers, done, hi, more, disk, offset);
  }

  /**
   * The state of a sequential write of `data` after the commands of `run`: the disk holds a prefix of
   * the data from the first write pointer on, and the pointer stands at its end. Every command was
   * issued as far from the pointer of its moment as the request was from the first pointer.
   */
  predicate WriteState(info: DeviceInfo, iov: seq<Iovec>, offset: nat, count: nat, data: seq<byte>,
                       first: seq<byte>, now: seq<byte>, firstPointer: nat, pointer: nat, run: seq<Command>)
  {
    && count * 512 <= |data|
    && Run(run, info, iov, offset, count)
    && firstPointer + Done(run) <= pointer <= firstPointer + count
    && (Progressing(run) ==> pointer == firstPointer + Done(run))
    && (pointer > firstPointer ==> offset == firstPointer)
    && pointer * 512 <= |first|
    && now == Overwrite(first, firstPointer * 512, data[..(pointer - firstPointer) * 512])
    && forall k :: 0 <= k < |run| ==> run[k].sector + firstPointer == run[k].pointer + offset
  }

  lemma WriteStarts(info: DeviceInfo, iov: seq<Iovec>, offset: nat, count: nat, data: seq<byte>, disk: seq<byte>,
                    pointer: nat)
    requires count * 512 <= |data| && pointer * 512 <= |disk|
    ensures WriteState(info, iov, offset, count, data, disk, disk, pointer, pointer, []) && Done([]) == 0
  {
    assert Overwrite(disk, pointer * 512, data[..0]) == disk;
  }

  lemma WriteStateRuns(info: DeviceInfo, iov: seq<Iovec>, offset: nat, count: nat, data: seq<byte>,
                       first: seq<byte>, now: seq<byte>, firstPointer: nat, pointer: nat, run: seq<Command>)
    requires WriteState(info, iov, offset, count, data, first, now, firstPointer, pointer, run)
    ensures Run(run, info, iov, offset, count) && Done(run) <= count
    ensures Progressing(run) ==> pointer == firstPointer + Done(run)
    ensures count * 512 <= |data|
  {
  }

  lemma OverwriteTwice(disk: seq<byte>, at: nat, x: seq<byte>, y: seq<byte>)
    requires at + |x| + |y| <= |disk|
    ensures Overwrite(Overwrite(disk, at, x), at + |x|, y) == Overwrite(disk, at, x + y)
  {
  }

  /** One more command: it extends the written prefix by the sectors that it put on the disk. */
  lemma WriteContinues(info: DeviceInfo, iov: seq<Iovec>, offset: nat, count: nat, data: seq<byte>,
                       first: seq<byte>, before: seq<byte>, after: seq<byte>, firstPointer: nat, pointer: nat, next: nat,
                       run: seq<Command>, c: Command, chunk: seq<byte>)
    requires WriteState(info, iov, offset, count, data, first, before, firstPointer, pointer, run)
    requires Progressing(run) && Next(c, Done(run), info, iov, offset, count) && c.pointer == pointer <= next
    requires Done(run) * 512 + |chunk| <= count * 512 && chunk == data[Done(run) * 512..Done(run) * 512 + |chunk|]
    requires (next - pointer) * 512 <= |chunk| && next * 512 <= |before|
    requires (next > pointer ==> c.sector == pointer) && (c.ret > 0 ==> next == pointer + c.ret)
    requires after == Overwrite(before, pointer * 512, chunk[..(next - pointer) * 512])
    ensures WriteState(info, iov, offset, count, data, first, after, firstPointer, next, run + [c])
  {
    hide Run, Done, ConvertRequest, Overwrite;
    RunExtends(run, c, info, iov, offset, count);
    var x, y := data[..(pointer - firstPointer) * 512], chunk[..(next - pointer) * 512];
    assert x + y == data[..(next - firstPointer) * 512];
    OverwriteTwice(first, firstPointer * 512, x, y);
  }

  lemma ChunkInMemory(buffers: seq<nat>, lo: nat, hi: nat, size: nat)
    requires InMemory(buffers, size) && lo <= hi <= |buffers|
    ensures InMemory(buffers[lo..hi], size)
  {
    assert forall k :: 0 <= k < hi - lo ==> buffers[lo..hi][k] == buffers[lo + k];
  }

  lemma GatherChunk(mem: seq<byte>, buffers: seq<nat>, lo: nat, hi: nat)
    requires InMemory(buffers, |mem|) && lo <= hi <= |buffers|
    ensures InMemory(buffers[lo..hi], |mem|) && Gather(mem, buffers[lo..hi]) == Gather(mem, buffers)[lo..hi]
  {
    assert forall k :: 0 <= k < hi - lo ==> buffers[lo..hi][k] == buffers[lo + k];
  }

  /** What the driver promises of a write command is what the loop needs to go on. */
  lemma WriteCompletes(info: DeviceInfo, iov: seq<Iovec>, offset: nat, count: nat, mem: seq<byte>,
                       first: seq<byte>, before: seq<byte>, after: seq<byte>, firstPointer: nat, pointer: nat, next: nat,
                       run: seq<Command>, c: Command)
    requires InMemory(Addresses(iov, 512), |mem|) && InMemory(Addresses(c.iov, 1), |mem|)
    requires WriteState(info, iov, offset, count, Gather(mem, Addresses(iov, 512)), first, before,
                        firstPointer, pointer, run)
    requires Progressing(run) && Next(c, Done(run), info, iov, offset, count) && c.pointer == pointer <= next
    requires (next - pointer) * 512 <= |Addresses(c.iov, 1)| && next * 512 <= |before|
    requires (next > pointer ==> c.sector == pointer) && (c.ret > 0 ==> next == pointer + c.ret)
    requires after == Overwrite(before, pointer * 512, Gather(mem, Addresses(c.iov, 1))[..(next - pointer) * 512])
    ensures WriteState(info, iov, offset, count, Gather(mem, Addresses(iov, 512)), first, after,
                       firstPointer, next, run + [c])
    ensures Run(run + [c], info, iov, offset, count)
    ensures Done(run + [c]) == Done(run) + (if c.ret > 0 then c.ret else 0) <= count
    ensures c.ret > 0 ==> Progressing(run + [c]) && next == firstPointer + Done(run + [c])
  {
    hide Addresses, Run, Done, ConvertRequest, Overwrite;
    var buffers, done := Addresses(iov, 512), Done(run);
    ChunkCovers(info, iov, done, count);
    var hi := done * 512 + ConvertRequest(iov, done, count - done, info.maxRwSectors, info.page).bytes;
    GatherChunk(mem, buffers, done * 512, hi);
    WriteContinues(info, iov, offset, count, Gather(mem, buffers), first, before, after, firstPointer, pointer, next,
                   run, c, Gather(mem, buffers)[done * 512..hi]);
    RunExtends(run, c, info, iov, offset, count);
  }

  class Device {
    const info: DeviceInfo
    const zoneEnd: nat

    var disk: seq<byte>
    /** The write pointer of the sequential zone that is being written. */
    var pointer: nat
    ghost var trace: seq<Command>

    ghost predicate Valid()
      reads this
    {
      info.Valid() && |disk| == info.sectors * 512 && pointer <= zoneEnd <= info.sectors
    }

    constructor (info: DeviceInfo, disk: seq<byte>, pointer: nat, zoneEnd: nat)
      requires info.Valid() && |disk| == info.sectors * 512 && pointer <= zoneEnd <= info.sectors
      ensures Valid() && this.info == info && this.disk == disk && this.pointer == pointer && trace == []
    {
      this.info, this.disk, this.pointer, this.zoneEnd, this.trace := info, disk, pointer, zoneEnd, [];
    }

    /**
     * The read command of a driver: it fails, or completes any non-empty part from the front. What it
     * leaves in the rest of its buffers is not specified.
     */
    method DriverRead(mem: array<byte>, iov: seq<Iovec>, sector: nat) returns (ret: int)
      requires Valid() && InMemory(Addresses(iov, 1), mem.Length)
      modifies mem, `trace
      ensures ret <= TotalLength(iov) / 512
      ensures trace == old(trace) + [Command(sector, iov, TotalLength(iov) / 512, pointer, ret)]
      ensures SameOutside(old(mem[..]), mem[..], Addresses(iov, 1))
      ensures ret > 0 ==>
                sector + ret <= info.sectors && Delivered(mem[..], Addresses(iov, 1), ret * 512, disk, sector)
    {
      AddressesLength(iov, 1);
      var addresses, sectors := Addresses(iov, 1), TotalLength(iov) / 512;
      ret :| ret <= sectors;
      if ret > 0 && sector + ret > info.sectors {
        ret := -EIO;
      }
      trace := trace + [Command(sector, iov, sectors, pointer, ret)];
      var n := if ret > 0 then ret * 512 else 0;
      for k := 0 to n
        invariant trace == old(trace) + [Command(sector, iov, sectors, pointer, ret)]
        invariant Delivered(mem[..], addresses, k, disk, sector)
        invariant SameOutside(old(mem[..]), mem[..], addresses)
      {
        mem[addresses[k]] := disk[sector * 512 + k];
      }
    }

    /**
     * The write command of a driver on the sequential zone: it is accepted only at the write pointer
     * and inside the zone. It fails, possibly after some sectors, or completes any non-empty part.
     */
    method DriverWrite(mem: array<byte>, iov: seq<Iovec>, sector: nat) returns (ret: int)
      requires Valid() && InMemory(Addresses(iov, 1), mem.Length)
      modifies `disk, `pointer, `trace
      ensures Valid() && pointer >= old(pointer)
      ensures ret <= TotalLength(iov) / 512
      ensures trace == old(trace) + [Command(sector, iov, TotalLength(iov) / 512, old(pointer), ret)]
      ensures var w := pointer - old(pointer);
              && w * 512 <= |Addresses(iov, 1)|
              && (w > 0 ==> sector == old(pointer))
              && (ret > 0 ==> w == ret)
              && disk == Overwrite(old(disk), old(pointer) * 512, Gather(mem[..], Addresses(iov, 1))[..w * 512])
    {
      AddressesLength(iov, 1);
      var data, sectors := Gather(mem[..], Addresses(iov, 1)), TotalLength(iov) / 512;
      var w: nat := 0;
      ret := -EIO;
      if sector == pointer && sector + sectors <= zoneEnd {
        w :| w <= sectors;
        if * {
          ret := w;
        } else {
          var error: int :| error > 0;
          ret := -error;
        }
      }
      trace := trace + [Command(sector, iov, sectors, pointer, ret)];
      disk := Overwrite(disk, pointer * 512, data[..w * 512]);
      pointer := pointer + w;
    }

    /** One turn of the read loop: convert what is left, and issue it. */
    method ReadCommand(mem: array<byte>, target: array<Iovec>, iov: seq<Iovec>, offset: nat, count: nat, done: nat,
                       ghost first: seq<byte>, ghost start: seq<Command>)
      returns (ret: int)
      requires Valid() && start <= trace && target.Length >= |iov|
      requires ReadState(info, iov, offset, count, disk, first, mem[..], trace[|start|..])
      requires Done(trace[|start|..]) == done < count && Progressing(trace[|start|..])
      modifies mem, target, `trace
      ensures start <= trace
      ensures ReadState(info, iov, offset, count, disk, first, mem[..], trace[|start|..])
      ensures |trace| > |start| && trace[|trace| - 1].ret == ret
      ensures Done(trace[|start|..]) == done + (if ret > 0 then ret else 0) <= count
      ensures ret > 0 ==> Progressing(trace[|start|..])
    {
      hide Addresses, Run, Done, ConvertRequest, ReadState, SameOutside, Delivered, InMemory, TotalLength, PowerOfTwo;
      ghost var before, run := mem[..], trace[|start|..];
      ReadStateRuns(info, iov, offset, count, disk, first, before, run);
      ChunkCovers(info, iov, done, count);
      ChunkInMemory(Addresses(iov, 512), done * 512,
                    done * 512 + ConvertRequest(iov, done, count - done, info.maxRwSectors, info.page).bytes, |before|);
      var entries, sectors := ConvertInPlace(target, iov, done, count - done, info.maxRwSectors, info.page);
      ret := DriverRead(mem, target[..entries], offset + done);
      ghost var c := trace[|trace| - 1];
      assert trace[|start|..] == run + [c];
      ReadContinues(info, iov, offset, count, disk, first, before, mem[..], run, c);
    }

    /** The command loop of a read of `count` sectors: all of it, or the error of the last command. */
    method ReadCommands(mem: array<byte>, iov: seq<Iovec>, offset: nat, count: nat) returns (ret: int)
      requires Valid() && InMemory(Addresses(iov, 512), mem.Length)
      requires count * 512 <= |Addresses(iov, 512)|
      modifies mem, `trace
      ensures old(trace) <= trace
      ensures ReadState(info, iov, offset, count, disk, old(mem[..]), mem[..], trace[|old(trace)|..])
      ensures Outcome(trace[|old(trace)|..], count, ret)
    {
      hide Addresses, Run, Done, ReadState;
      var target := new Iovec[|iov|](_ => Iovec(0, 0));
      var done: nat := 0;
      ghost var start, first := trace, mem[..];
      ReadStarts(info, iov, offset, count, disk, first);
      assert trace[|start|..] == [];
      while done < count
        invariant Valid() && start <= trace
        invariant ReadState(info, iov, offset, count, disk, first, mem[..], trace[|start|..])
        invariant Done(trace[|start|..]) == done <= count && Progressing(trace[|start|..])
      {
        ret := ReadCommand(mem, target, iov, offset, count, done, first, start);
        if ret <= 0 {
          return if ret < 0 then ret else -EIO;
        }
        done := done + ret;
      }
      ret := count;
    }

    /** `zbc_preadv`: admission, then the commands. */
    method Read(mem: array<byte>, iov: seq<Iovec>, offset: u64) returns (ret: int)
      requires Valid()
      requires Admit(info, info.lblockSize, U64(TotalLength(iov)), offset).Admitted? ==>
                 InMemory(Addresses(iov, 512), mem.Length) && TotalLength(iov) < MAX_SECTORS
      modifies mem, `trace
      ensures old(trace) <= trace
      ensures iov == [] ==> ret == -EINVAL && mem[..] == old(mem[..])
      ensures iov != [] ==>
                match Admit(info, info.lblockSize, U64(TotalLength(iov)), offset)
                case Refused(error) => ret == error && mem[..] == old(mem[..]) && trace == old(trace)
                case Nothing => ret == 0 && mem[..] == old(mem[..]) && trace == old(trace)
                case Admitted(count) =>
                  var run := trace[|old(trace)|..];
                  && ReadState(info, iov, offset, count, disk, old(mem[..]), mem[..], run)
                  && Outcome(run, count, ret)
      ensures iov != [] && info.testMode && 0 < TotalLength(iov) && TotalLength(iov) * 512 <= SSIZE_MAX ==>
                |trace| > |old(trace)| && trace[|old(trace)|].sector == offset
    {
      if iov == [] {
        return -EINVAL;
      }
      hide Addresses, Run, Done, ReadState, Admit;
      var count := CountSectors(iov);
      AdmittedWithin(info, info.lblockSize, U64(count), offset);
      match Admit(info, info.lblockSize, U64(count), offset)
      case Refused(error) => ret := error;
      case Nothing => ret := 0;
      case Admitted(c) =>
        ret := ReadCommands(mem, iov, offset, c);
        ReadStateRuns(info, iov, offset, c, disk, old(mem[..]), mem[..], trace[|old(trace)|..]);
        FirstCommand(info, iov, offset, c, trace[|old(trace)|..], ret);
    }

    /** One turn of the write loop. */
    method WriteCommand(mem: array<byte>, target: array<Iovec>, iov: seq<Iovec>, offset: nat, count: nat, done: nat,
                        ghost first: seq<byte>, ghost firstPointer: nat, ghost start: seq<Command>)
      returns (ret: int)
      requires Valid() && start <= trace && target.Length >= |iov| && InMemory(Addresses(iov, 512), mem.Length)
      requires WriteState(info, iov, offset, count, Gather(mem[..], Addresses(iov, 512)), first, disk,
                          firstPointer, pointer, trace[|start|..])
      requires Done(trace[|start|..]) == done < count && Progressing(trace[|start|..])
      modifies target, `disk, `pointer, `trace
      ensures Valid() && start <= trace
      ensures WriteState(info, iov, offset, count, Gather(mem[..], Addresses(iov, 512)), first, disk,
                         firstPointer, pointer, trace[|start|..])
      ensures |trace| > |start| && trace[|trace| - 1].ret == ret
      ensures Done(trace[|start|..]) == done + (if ret > 0 then ret else 0) <= count
      ensures ret > 0 ==> Progressing(trace[|start|..]) && pointer == firstPointer + done + ret
    {
      hide Addresses, Run, Done, ConvertRequest, WriteState, Overwrite, Gather, InMemory, TotalLength, PowerOfTwo;
      ghost var before, run, at := disk, trace[|start|..], pointer;
      WriteStateRuns(info, iov, offset, count, Gather(mem[..], Addresses(iov, 512)), first, before, firstPointer, at, run);
      ChunkCovers(info, iov, done, count);
      ChunkInMemory(Addresses(iov, 512), done * 512,
                    done * 512 + ConvertRequest(iov, done, count - done, info.maxRwSectors, info.page).bytes, mem.Length);
      var entries, sectors := ConvertInPlace(target, iov, done, count - done, info.maxRwSectors, info.page);
      ret := DriverWrite(mem, target[..entries], offset + done);
      ghost var c := trace[|trace| - 1];
      assert trace[|start|..] == run + [c];
      WriteCompletes(info, iov, offset, count, mem[..], first, before, disk, firstPointer, at, pointer, run, c);
    }

    /** The command loop of a write of `count` sectors. */
    method WriteCommands(mem: array<byte>, iov: seq<Iovec>, offset: nat, count: nat) returns (ret: int)
      requires Valid() && InMemory(Addresses(iov, 512), mem.Length)
      requires count * 512 <= |Addresses(iov, 512)|
      modifies `disk, `pointer, `trace
      ensures Valid() && old(trace) <= trace
      ensures WriteState(info, iov, offset, count, Gather(mem[..], Addresses(iov, 512)), old(disk), disk,
                         old(pointer), pointer, trace[|old(trace)|..])
      ensures Outcome(trace[|old(trace)|..], count, ret)
      ensures ret == count ==> pointer == old(pointer) + count
    {
      hide Addresses, Run, Done, WriteState, Gather;
      var target := new Iovec[|iov|](_ => Iovec(0, 0));
      var done: nat := 0;
      ghost var start, first, firstPointer := trace, disk, pointer;
      WriteStarts(info, iov, offset, count, Gather(mem[..], Addresses(iov, 512)), disk, pointer);
      assert trace[|start|..] == [];
      while done < count
        invariant Valid() && start <= trace && mem[..] == old(mem[..])
        invariant WriteState(info, iov, offset, count, Gather(mem[..], Addresses(iov, 512)), first, disk,
                             firstPointer, pointer, trace[|start|..])
        invariant Done(trace[|start|..]) == done <= count && pointer == firstPointer + done
        invariant Progressing(trace[|start|..])
      {
        ret := WriteCommand(mem, target, iov, offset, count, done, first, firstPointer, start);
        if ret <= 0 {
          return if ret < 0 then ret else -EIO;
        }
        done := done + ret;
      }
      ret := count;
    }

    /** `zbc_pwritev`: admission on physical blocks, then the commands. */
    method Write(mem: array<byte>, iov: seq<Iovec>, offset: u64) returns (ret: int)
      requires Valid()
      requires Admit(info, info.pblockSize, U64(TotalLength(iov)), offset).Admitted? ==>
                 InMemory(Addresses(iov, 512), mem.Length) && TotalLength(iov) < MAX_SECTORS
      modifies `disk, `pointer, `trace
      ensures Valid() && old(trace) <= trace
      ensures iov == [] ==> ret == -EINVAL && unchanged(this)
      ensures iov != [] ==>
                match Admit(info, info.pblockSize, U64(TotalLength(iov)), offset)
                case Refused(error) => ret == error && unchanged(this)
                case Nothing => ret == 0 && unchanged(this)
                case Admitted(count) =>
                  var run := trace[|old(trace)|..];
                  && count * 512 <= |Addresses(iov, 512)|
                  && WriteState(info, iov, offset, count, Gather(mem[..], Addresses(iov, 512)), old(disk), disk,
                                old(pointer), pointer, run)
                  && Outcome(run, count, ret)
                  && (ret == count ==> pointer == old(pointer) + count)
      ensures iov != [] && info.testMode && 0 < TotalLength(iov) && TotalLength(iov) * 512 <= SSIZE_MAX ==>
                |trace| > |old(trace)| && trace[|old(trace)|].sector == offset
    {
      if iov == [] {
        return -EINVAL;
      }
      hide Addresses, Run, Done, WriteState, Admit, Gather;
      var count := CountSectors(iov);
      AdmittedWithin(info, info.pblockSize, U64(count), offset);
      match Admit(info, info.pblockSize, U64(count), offset)
      case Refused(error) => ret := error;
      case Nothing => ret := 0;
      case Admitted(c) =>
        ret := WriteCommands(mem, iov, offset, c);
        WriteStateRuns(info, iov, offset, c, Gather(mem[..], Addresses(iov, 512)), old(disk), disk, old(pointer), pointer,
                       trace[|old(trace)|..]);
        FirstCommand(info, iov, offset, c, trace[|old(trace)|..], ret);
    }
  }

  /** On a request that starts at the write pointer, every command starts at the pointer it meets. */
  lemma CommandsStartAtPointer(info: DeviceInfo, iov: seq<Iovec>, count: nat, data: seq<byte>,
                               first: seq<byte>, now: seq<byte>, firstPointer: nat, pointer: nat, run: seq<Command>, k: nat)
    requires WriteState(info, iov, firstPointer, count, data, first, now, firstPointer, pointer, run)
    requires k < |run|
    ensures run[k].sector == run[k].pointer == firstPointer + Done(run[..k])
  {
    RunPrefix(info, iov, firstPointer, count, run, k);
  }

  /** Every command of a run starts where the previous ones stopped. */
  lemma {:induction false} RunPrefix(info: DeviceInfo, iov: seq<Iovec>, offset: nat, count: nat, run: seq<Command>, k: nat)
    requires Run(run, info, iov, offset, count) && k < |run|
    ensures Run(run[..k], info, iov, offset, count) && Next(run[k], Done(run[..k]), info, iov, offset, count)
    ensures forall j :: 0 <= j < k ==> run[j].ret > 0
  {
    hide Next;
    var n := |run| - 1;
    if k < n {
      RunPrefix(info, iov, offset, count, run[..n], k);
      assert run[..n][..k] == run[..k];
    }
    if k > 0 {
      RunPrefix(info, iov, offset, count, run[..k], k - 1);
    }
  }
}
