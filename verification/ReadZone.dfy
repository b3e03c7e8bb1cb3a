/** `zbc_map_iov`, and the loop of the zbc_read_zone tool that streams a zone through it. */
module ReadZone {
  import opened Bits
  import opened Errors
  import opened Zones
  import opened IoVector
  import opened VectorIo

  const TWO64: nat := 0x1_0000_0000_0000_0000

  lemma {:induction false} AddressesAppend(iov: seq<Iovec>, e: Iovec, unit: nat)
    ensures Addresses(iov + [e], unit) == Addresses(iov, unit) + Span(e.base, e.len * unit)
  {
    if iov == [] {
      assert ([] + [e])[1..] == [];
    } else {
      AddressesAppend(iov[1..], e, unit);
      assert (iov + [e])[1..] == iov[1..] + [e];
    }
  }

  /** The count of entries so far, when `left` of the sectors remain and `room` entries exist. */
  predicate Filled(i: nat, left: nat, sectors: nat, iovlen: nat, room: nat) {
    && i <= room && left <= sectors && left <= (room - i) * iovlen
    && if left > 0 then sectors - left == i * iovlen else 0 < i && (i - 1) * iovlen < sectors <= i * iovlen
  }

  lemma FilledStarts(sectors: nat, iovlen: nat, room: nat)
    requires 0 < sectors <= U64(room * iovlen)
    ensures iovlen > 0 && Filled(0, sectors, sectors, iovlen, room)
  {
  }

  lemma FilledStep(i: nat, left: nat, sectors: nat, iovlen: nat, room: nat)
    requires left > 0 && Filled(i, left, sectors, iovlen, room)
    ensures i < room && Filled(i + 1, left - Min(left, iovlen), sectors, iovlen, room)
  {
    if i == room {
      assert false;
    }
    OneMore(room - i - 1, iovlen);
    OneMore(i, iovlen);
  }

  lemma OneMore(k: nat, n: nat)
    ensures (k + 1) * n == k * n + n
  {
  }

  lemma FilledEnds(i: nat, sectors: nat, iovlen: nat, room: nat)
    requires iovlen > 0 && Filled(i, 0, sectors, iovlen, room)
    ensures i == CeilDiv(sectors, iovlen)
  {
    OneMore(i - 1, iovlen);
    CeilDivUnique(sectors, iovlen, i);
  }

  /** Cuts a buffer into entries of `iovlen` sectors; a null buffer is address zero. */
  method MapIov(buf: nat, sectors: nat, target: array<Iovec>, iovlen: nat) returns (ret: int)
    modifies target
    ensures ret < 0 <==> (buf == 0 || sectors == 0 || target.Length == 0 || sectors > U64(target.Length * iovlen))
    ensures ret < 0 ==> ret == -EINVAL && target[..] == old(target[..])
    ensures ret >= 0 ==>
              && iovlen > 0 && ret == CeilDiv(sectors, iovlen) && ret <= target.Length
              && Addresses(target[..ret], 512) == Span(buf, sectors * 512)
              && forall k :: 0 <= k < ret ==> 0 < target[k].len <= iovlen
  {
    hide Filled, CeilDiv, U64, Addresses;
    if buf == 0 || sectors == 0 || target.Length == 0 || sectors > U64(target.Length * iovlen) {
      return -EINVAL;
    }
    var left: nat, at: nat, i: nat := sectors, buf, 0;
    FilledStarts(sectors, iovlen, target.Length);
    NoAddresses(buf);
    while left > 0
      invariant Filled(i, left, sectors, iovlen, target.Length) && i <= target.Length
      invariant left <= sectors && at == buf + (sectors - left) * 512
      invariant Addresses(target[..i], 512) == Span(buf, (sectors - left) * 512)
      invariant forall k :: 0 <= k < i ==> 0 < target[k].len <= iovlen
    {
      FilledStep(i, left, sectors, iovlen, target.Length);
      var len := if left > iovlen then iovlen else left;
      AddressesAppend(target[..i], Iovec(at, len), 512);
      target[i] := Iovec(at, len);
      assert target[..i + 1] == target[..i] + [Iovec(at, len)];
      at := at + len * 512;
      left := left - len;
      i := i + 1;
    }
    FilledEnds(i, sectors, iovlen, target.Length);
    ret := i;
  }

  lemma NoAddresses(buf: nat)
    ensures Addresses([], 512) == Span(buf, 0)
  {
  }

  /** How far into a zone the tool reads: to the write pointer of a zone that is not full, else all of it. */
  function ReadableSectors(zone: Zone): int {
    if zone.ztype == ZT_SEQUENTIAL_REQ && zone.condition != ZC_FULL then zone.writePointer - zone.start
    else zone.length
  }

  /** The end of what is read: the write pointer of a sequential write required zone that is not full, or the zone end. */
  lemma ReadableExactly(zone: Zone)
    ensures zone.start + ReadableSectors(zone)
         == if zone.ztype == 0x02 && zone.condition != 0x0E then zone.writePointer else zone.start + zone.length
  {
  }

  lemma SpanDistinct(base: nat, n: nat)
    ensures Distinct(Span(base, n))
  {
  }

  /** A count just below 2^64, as a negative one is passed on, is never admitted by a device of 63-bit size. */
  lemma NegativeNotAdmitted(info: DeviceInfo, block: nat, excess: nat, offset: u64)
    requires info.Valid() && block > 0 && !info.testMode && info.sectors * 512 <= SSIZE_MAX + 1
    requires 0 < excess <= offset
    ensures !Admit(info, block, TWO64 - excess, offset).Admitted?
  {
    hide And;
    if offset < info.sectors {
      assert (TWO64 - excess) * 512 == 511 * TWO64 + (TWO64 - excess * 512);
      assert U64((TWO64 - excess) * 512) == TWO64 - excess * 512;
    }
  }

  lemma AdmitsClipped(info: DeviceInfo, block: nat, count: u64, offset: u64)
    requires info.Valid() && block > 0 && !info.testMode && count < MAX_SECTORS
    ensures var a := Admit(info, block, count, offset);
            a.Admitted? ==> offset < info.sectors && a.count == Min(count, info.sectors - offset) > 0
  {
    hide And;
  }

  lemma BufferFilled(mem: seq<byte>, iobuf: nat, size: nat, n: nat, disk: seq<byte>, sector: nat)
    requires Delivered(mem, Span(iobuf, size), n, disk, sector) && iobuf + size <= |mem| && 0 < n <= size
    ensures sector * 512 + n <= |disk| && mem[iobuf..iobuf + n] == disk[sector * 512..sector * 512 + n]
  {
    SpanDistinct(iobuf, size);
    var got := mem[iobuf..iobuf + n];
    forall k | 0 <= k < n
      ensures got[k] == disk[sector * 512 + k]
    {
      assert Span(iobuf, size)[k] == iobuf + k;
    }
  }

  /** The unsigned count that a signed one is passed on as. */
  function AsCount(sectors: int): (count: u64)
    requires -0x8000_0000_0000_0000 <= sectors < 0x8000_0000_0000_0000
    ensures (count - sectors) % 0x1_0000_0000_0000_0000 == 0
  {
    if sectors < 0 then sectors + TWO64 else sectors
  }

  /** The result of one I/O: refused by the mapping or the admission, or the outcome of its commands. */
  predicate ReadResult(info: DeviceInfo, run: seq<Command>, count: u64, sector: u64, mappable: bool, ret: int)
    requires info.lblockSize > 0
  {
    if !mappable then ret == -EINVAL
    else
      match Admit(info, info.lblockSize, count, sector)
      case Refused(error) => ret == error
      case Nothing => ret == 0
      case Admitted(c) => Outcome(run, c, ret)
  }

  /**
   * One I/O: the sectors up to the end of the device arrive in the buffer, or it reports an error. No
   * other memory is touched.
   */
  method ReadOnce(dev: Device, mem: array<byte>, iobuf: nat, iov: array<Iovec>, iovlen: nat, vio: bool,
                  sectors: int, sector: u64)
    returns (ret: int)
    requires dev.Valid() && !dev.info.testMode && dev.info.sectors * 512 <= SSIZE_MAX + 1
    requires 0 < iobuf && iobuf + sectors * 512 <= mem.Length <= SSIZE_MAX
    requires 0 < iov.Length && 0 < iovlen && iov.Length * iovlen <= mem.Length
    requires -0x8000_0000_0000_0000 <= sectors != 0 && (sectors < 0 ==> -sectors <= sector)
    modifies mem, iov, dev`trace
    ensures old(dev.trace) <= dev.trace
    ensures SameOutside(old(mem[..]), mem[..], Span(iobuf, if sectors < 0 then 0 else sectors * 512))
    ensures ReadResult(dev.info, dev.trace[|old(dev.trace)|..], AsCount(sectors), sector,
                       !vio || AsCount(sectors) <= iov.Length * iovlen, ret)
    ensures ret > 0 ==>
              && 0 < sectors && sector + ret <= dev.info.sectors && ret == Min(sectors, dev.info.sectors - sector)
              && mem[iobuf..iobuf + ret * 512] == dev.disk[sector * 512..(sector + ret) * 512]
  {
    hide Admit, Outcome, Addresses, SameOutside;
    NothingChanged(mem[..], Span(iobuf, if sectors < 0 then 0 else sectors * 512));
    var mapped, vector := MakeVector(iobuf, iov, iovlen, vio, AsCount(sectors));
    if !mapped {
      return -EINVAL;
    }
    ret := ReadVector(dev, mem, iobuf, vector, sectors, sector);
  }

  /** The read of one I/O, on a vector of its buffer. */
  method ReadVector(dev: Device, mem: array<byte>, iobuf: nat, vector: seq<Iovec>, sectors: int, sector: u64)
    returns (ret: int)
    requires dev.Valid() && !dev.info.testMode && dev.info.sectors * 512 <= SSIZE_MAX + 1
    requires iobuf + sectors * 512 <= mem.Length <= SSIZE_MAX
    requires -0x8000_0000_0000_0000 <= sectors != 0 && (sectors < 0 ==> -sectors <= sector)
    requires vector != [] && TotalLength(vector) == AsCount(sectors)
    requires Addresses(vector, 512) == Span(iobuf, AsCount(sectors) * 512)
    modifies mem, dev`trace
    ensures old(dev.trace) <= dev.trace
    ensures SameOutside(old(mem[..]), mem[..], Span(iobuf, if sectors < 0 then 0 else sectors * 512))
    ensures ReadResult(dev.info, dev.trace[|old(dev.trace)|..], AsCount(sectors), sector, true, ret)
    ensures ret > 0 ==>
              && 0 < sectors && sector + ret <= dev.info.sectors && ret == Min(sectors, dev.info.sectors - sector)
              && mem[iobuf..iobuf + ret * 512] == dev.disk[sector * 512..(sector + ret) * 512]
  {
    hide Run, Done, Admit, Outcome, ReadState, Addresses, SameOutside, TotalLength;
    var count := AsCount(sectors);
    NothingChanged(mem[..], Span(iobuf, if sectors < 0 then 0 else sectors * 512));
    CountAdmitted(dev.info, dev.info.lblockSize, sectors, sector);
    if sectors > 0 {
      SpanInMemory(iobuf, sectors * 512, mem.Length);
    }
    ghost var before := mem[..];
    ret := dev.Read(mem, vector, sector);
    if Admit(dev.info, dev.info.lblockSize, count, sector).Admitted? {
      ReadArrived(dev.info, vector, sector, sectors, Admit(dev.info, dev.info.lblockSize, count, sector).count, dev.disk,
                  before, mem[..], dev.trace[|old(dev.trace)|..], iobuf, ret);
    }
  }

  /** The vector of one I/O: mapped in pieces, or one buffer. */
  method MakeVector(iobuf: nat, iov: array<Iovec>, iovlen: nat, vio: bool, count: u64)
    returns (mapped: bool, vector: seq<Iovec>)
    requires 0 < iobuf && 0 < count && 0 < iov.Length && 0 < iovlen && iov.Length * iovlen < TWO64
    modifies iov
    ensures mapped <==> (!vio || count <= iov.Length * iovlen)
    ensures mapped ==> vector != [] && Addresses(vector, 512) == Span(iobuf, count * 512) && TotalLength(vector) == count
  {
    hide Addresses, TotalLength;
    vector := [Iovec(iobuf, count)];
    SingleBuffer(iobuf, count);
    if vio {
      var n := MapIov(iobuf, count, iov, iovlen);
      if n < 0 {
        return false, vector;
      }
      vector := iov[..n];
      NoAddresses(iobuf);
    }
    AddressesLength(vector, 512);
    mapped := true;
  }

  /** An admitted count is positive, and reaches at most to the end of the device. */
  lemma CountAdmitted(info: DeviceInfo, block: nat, sectors: int, sector: u64)
    requires info.Valid() && block > 0 && !info.testMode && info.sectors * 512 <= SSIZE_MAX + 1
    requires -0x8000_0000_0000_0000 <= sectors < MAX_SECTORS && (sectors < 0 ==> -sectors <= sector)
    ensures var a := Admit(info, block, AsCount(sectors), sector);
            && (a.Admitted? ==>
                  sectors > 0 && sector < info.sectors && a.count == Min(sectors, info.sectors - sector) > 0)
            && (a.Refused? ==> a.error < 0)
  {
    hide Admit;
    AdmittedWithin(info, block, AsCount(sectors), sector);
    if sectors < 0 {
      NegativeNotAdmitted(info, block, -sectors, sector);
    } else {
      AdmitsClipped(info, block, sectors, sector);
    }
  }

  lemma NothingChanged(mem: seq<byte>, addresses: seq<nat>)
    ensures SameOutside(mem, mem, addresses)
  {
  }

  lemma SpanInMemory(base: nat, n: nat, size: nat)
    requires base + n <= size
    ensures InMemory(Span(base, n), size)
  {
  }

  /** What a read of the first `count` of the sectors means for the buffer. */
  lemma ReadArrived(info: DeviceInfo, vector: seq<Iovec>, sector: u64, sectors: nat, count: nat, disk: seq<byte>,
                    before: seq<byte>, after: seq<byte>, run: seq<Command>, iobuf: nat, ret: int)
    requires Addresses(vector, 512) == Span(iobuf, sectors * 512) && 0 < count <= sectors && iobuf + sectors * 512 <= |after|
    requires ReadState(info, vector, sector, count, disk, before, after, run) && Outcome(run, count, ret)
    ensures SameOutside(before, after, Span(iobuf, sectors * 512))
    ensures ret > 0 ==>
              && ret == count && (sector + ret) * 512 <= |disk|
              && after[iobuf..iobuf + ret * 512] == disk[sector * 512..(sector + ret) * 512]
  {
    hide Run, Done, Delivered, Addresses;
    var buffers := Span(iobuf, sectors * 512);
    assert forall a :: a in buffers[..count * 512] ==> a in buffers;
    if ret > 0 {
      BufferFilled(after, iobuf, sectors * 512, count * 512, disk, sector);
    }
  }

  lemma SingleBuffer(base: nat, sectors: nat)
    ensures Addresses([Iovec(base, sectors)], 512) == Span(base, sectors * 512)
  {
    AddressesAppend([], Iovec(base, sectors), 512);
    assert [] + [Iovec(base, sectors)] == [Iovec(base, sectors)];
  }

  /** The sectors of one full I/O: all the entries of the vector. */
  function IoSectors(bufsize: nat, iovcnt: nat): nat {
    bufsize * iovcnt / 512
  }

  /**
   * Where streaming stops: the readable end, the end of the device, or the end of the last I/O allowed
   * (0 is no limit).
   */
  function StreamEnd(zone: Zone, capacity: nat, zoneOfst: nat, io: nat, ionum: nat): int {
    var readable := ReadableSectors(zone);
    if readable == zoneOfst then zoneOfst
    else
      var last := if readable > capacity - zone.start then capacity - zone.start else readable;
      if ionum == 0 || zoneOfst + ionum * io > last then last else zoneOfst + ionum * io
  }

  /** The sectors of the next I/O, which a position past the readable end makes negative. */
  function NextCount(zone: Zone, ofst: nat, io: nat): (count: int) {
    if ofst + io > ReadableSectors(zone) then ReadableSectors(zone) - ofst else io
  }

  /**
   * The I/O at a position failed: its count is negative, it is not aligned to blocks, it starts past the end
   * of the device, or its last command made no progress.
   */
  predicate IoFailed(info: DeviceInfo, zone: Zone, ofst: nat, io: nat, before: seq<Command>, after: seq<Command>)
    requires info.lblockSize > 0
  {
    var n := NextCount(zone, ofst, io);
    || n < 0
    || n * 512 % info.lblockSize != 0 || (zone.start + ofst) * 512 % info.lblockSize != 0
    || zone.start + ofst >= info.sectors
    || (|after| > |before| && after[|after| - 1].ret <= 0)
  }

  lemma FailureMeans(info: DeviceInfo, run: seq<Command>, count: u64, sector: u64, ret: int)
    requires info.Valid() && !info.testMode && 0 < count && count * 512 <= SSIZE_MAX && ret <= 0
    requires ReadResult(info, run, count, sector, true, ret)
    ensures count * 512 % info.lblockSize != 0 || sector * 512 % info.lblockSize != 0 || sector >= info.sectors
            || (run != [] && run[|run| - 1].ret <= 0)
  {
    hide Admit, Run, Done;
    AdmitClipsExactly(info, info.lblockSize, count, sector);
  }

  lemma NextCountExactly(zone: Zone, ofst: nat, io: nat)
    requires io > 0
    ensures NextCount(zone, ofst, io) == 0 <==> ofst == ReadableSectors(zone)
    ensures NextCount(zone, ofst, io) <= io
  {
    hide ReadableSectors;
  }

  /** Positions in a zone, and their sums with its start, fit 64 bits; so do differences with a sign. */
  predicate Positions(zone: Zone, zoneOfst: nat) {
    && zone.End() < 0x8000_0000_0000_0000 && zoneOfst < 0x8000_0000_0000_0000
    && zoneOfst - ReadableSectors(zone) <= 0x8000_0000_0000_0000
  }

  /**
   * The read loop: what it writes to the file is the content of the device from the offset into the
   * zone on, and all of it up to the end of the stream unless it reports an error.
   */
  method StreamZone(dev: Device, mem: array<byte>, iobuf: nat, zone: Zone, bufsize: nat, iovcnt: nat, vio: bool,
                    zoneOfst: nat, ionum: nat)
    returns (ok: bool, file: seq<byte>)
    requires dev.Valid() && !dev.info.testMode && dev.info.sectors * 512 <= SSIZE_MAX + 1
    requires dev.info.lblockSize % 512 == 0 && Positions(zone, zoneOfst)
    requires 0 < bufsize && 0 < iovcnt && 0 < iobuf && iobuf + bufsize * iovcnt <= mem.Length <= SSIZE_MAX
    modifies mem, dev`trace
    ensures var from := (zone.start + zoneOfst) * 512;
            && (file != [] ==> from + |file| <= |dev.disk| && file == dev.disk[from..from + |file|])
            && (ok ==>
                  |file| == (StreamEnd(zone, dev.info.sectors, zoneOfst, IoSectors(bufsize, iovcnt), ionum) - zoneOfst) * 512)
    ensures |file| % 512 == 0 && old(dev.trace) <= dev.trace
    ensures bufsize % dev.info.lblockSize == 0 ==> IoSectors(bufsize, iovcnt) > 0
    ensures ok <==> bufsize % dev.info.lblockSize == 0
                    && (zoneOfst + |file| / 512 == ReadableSectors(zone)
                        || CeilDiv(|file| / 512, IoSectors(bufsize, iovcnt)) == ionum > 0)
    ensures !ok && bufsize % dev.info.lblockSize == 0 ==>
              var ofst := zoneOfst + |file| / 512;
              var n := NextCount(zone, ofst, IoSectors(bufsize, iovcnt));
              || n < 0
              || n * 512 % dev.info.lblockSize != 0 || (zone.start + ofst) * 512 % dev.info.lblockSize != 0
              || zone.start + ofst >= dev.info.sectors
              || (|dev.trace| > |old(dev.trace)| && dev.trace[|dev.trace| - 1].ret <= 0)
  {
    hide Streamed, StreamEnd, IoSectors, NextCount, ReadableSectors, Addresses, Admit, Positions, CeilDiv, IoFailed;
    if bufsize % dev.info.lblockSize != 0 {
      return false, [];
    }
    IoMovesSectors(bufsize, iovcnt, dev.info.lblockSize);
    var iov, io := new Iovec[iovcnt](_ => Iovec(0, 0)), IoSectors(bufsize, iovcnt);
    ghost var ofst, iocount;
    ok, file, ofst, iocount := StreamLoop(dev, mem, iobuf, iov, bufsize / 512, vio, zone, zoneOfst, io, ionum);
    StreamSummary(dev.info, zone, zoneOfst, ofst, iocount, io, dev.disk, file, ionum, ok, old(dev.trace), dev.trace);
  }

  /** What the end of the loop says of the file. */
  lemma StreamSummary(info: DeviceInfo, zone: Zone, zoneOfst: nat, ofst: nat, iocount: nat, io: nat, disk: seq<byte>,
                      file: seq<byte>, ionum: nat, ok: bool, before: seq<Command>, after: seq<Command>)
    requires info.Valid() && io > 0 && Streamed(zone, info.sectors, zoneOfst, ofst, iocount, io, disk, file)
    requires (ionum > 0 ==> iocount <= ionum) && (ok <==> NextCount(zone, ofst, io) == 0 || iocount == ionum > 0)
    requires !ok ==> IoFailed(info, zone, ofst, io, before, after)
    ensures var from := (zone.start + zoneOfst) * 512;
            && (file != [] ==> from + |file| <= |disk| && file == disk[from..from + |file|])
            && (ok ==> |file| == (StreamEnd(zone, info.sectors, zoneOfst, io, ionum) - zoneOfst) * 512)
    ensures |file| % 512 == 0
    ensures ok <==> zoneOfst + |file| / 512 == ReadableSectors(zone) || CeilDiv(|file| / 512, io) == ionum > 0
    ensures !ok ==>
              var ofst := zoneOfst + |file| / 512;
              var n := NextCount(zone, ofst, io);
              || n < 0
              || n * 512 % info.lblockSize != 0 || (zone.start + ofst) * 512 % info.lblockSize != 0
              || zone.start + ofst >= info.sectors
              || (|after| > |before| && after[|after| - 1].ret <= 0)
  {
    hide Streamed, StreamEnd, NextCount, ReadableSectors, CeilDiv, IoFailed;
    NextCountExactly(zone, ofst, io);
    StreamedFile(zone, info.sectors, zoneOfst, ofst, iocount, io, disk, file);
    StreamedCount(zone, info.sectors, zoneOfst, ofst, iocount, io, disk, file);
    assert zoneOfst + |file| / 512 == ofst;
    if ok {
      StreamedEnds(zone, info.sectors, zoneOfst, ofst, iocount, io, disk, file, ionum);
    } else {
      FailedMeans(info, zone, ofst, io, before, after);
    }
  }

  /** The loop: it stops at the readable end, after the I/Os allowed, or at an I/O that fails. */
  method StreamLoop(dev: Device, mem: array<byte>, iobuf: nat, iov: array<Iovec>, iovlen: nat, vio: bool, zone: Zone,
                    zoneOfst: nat, io: nat, ionum: nat)
    returns (ok: bool, file: seq<byte>, ghost ofst: nat, ghost iocount: nat)
    requires dev.Valid() && !dev.info.testMode && dev.info.sectors * 512 <= SSIZE_MAX + 1
    requires Positions(zone, zoneOfst) && io > 0
    requires 0 < iobuf && iobuf + io * 512 <= mem.Length <= SSIZE_MAX
    requires 0 < iov.Length && 0 < iovlen && io <= iov.Length * iovlen <= mem.Length
    modifies mem, iov, dev`trace
    ensures old(dev.trace) <= dev.trace
    ensures Streamed(zone, dev.info.sectors, zoneOfst, ofst, iocount, io, dev.disk, file)
    ensures ionum > 0 ==> iocount <= ionum
    ensures ok <==> (NextCount(zone, ofst, io) == 0 || iocount == ionum > 0)
    ensures !ok ==> IoFailed(dev.info, zone, ofst, io, old(dev.trace), dev.trace)
  {
    hide Streamed, StreamEnd, NextCount, ReadableSectors, Addresses, Admit, Positions, IoFailed;
    var position: nat, count: nat := zoneOfst, 0;
    file := [];
    StreamedStarts(zone, dev.info.sectors, zoneOfst, io, dev.disk);
    while NextCount(zone, position, io) != 0
      invariant dev.Valid() && (ionum > 0 ==> count < ionum) && old(dev.trace) <= dev.trace
      invariant Streamed(zone, dev.info.sectors, zoneOfst, position, count, io, dev.disk, file)
      decreases ReadableSectors(zone) - position
    {
      StreamedFile(zone, dev.info.sectors, zoneOfst, position, count, io, dev.disk, file);
      ghost var before := dev.trace;
      var moved, data := StreamIo(dev, mem, iobuf, iov, iovlen, vio, zone, zoneOfst, position, io);
      if moved == 0 {
        FailedSince(dev.info, zone, position, io, old(dev.trace), before, dev.trace);
        return false, file, position, count;
      }
      StreamedStep(zone, dev.info.sectors, zoneOfst, position, count, io, dev.disk, file, moved);
      file, position, count := file + data, position + moved, count + 1;
      if ionum > 0 && count >= ionum {
        break;
      }
    }
    ok, ofst, iocount := true, position, count;
  }

  lemma FailedMeans(info: DeviceInfo, zone: Zone, ofst: nat, io: nat, before: seq<Command>, after: seq<Command>)
    requires info.lblockSize > 0 && IoFailed(info, zone, ofst, io, before, after)
    ensures var n := NextCount(zone, ofst, io);
            || n < 0
            || n * 512 % info.lblockSize != 0 || (zone.start + ofst) * 512 % info.lblockSize != 0
            || zone.start + ofst >= info.sectors
            || (|after| > |before| && after[|after| - 1].ret <= 0)
  {
  }

  lemma FailedSince(info: DeviceInfo, zone: Zone, ofst: nat, io: nat, first: seq<Command>, before: seq<Command>,
                    after: seq<Command>)
    requires info.lblockSize > 0 && first <= before && IoFailed(info, zone, ofst, io, before, after)
    ensures IoFailed(info, zone, ofst, io, first, after)
  {
  }

  /** One turn of the loop: the data of the next I/O, or nothing exactly if it fails. */
  method StreamIo(dev: Device, mem: array<byte>, iobuf: nat, iov: array<Iovec>, iovlen: nat, vio: bool, zone: Zone,
                  zoneOfst: nat, ofst: nat, io: nat)
    returns (moved: nat, data: seq<byte>)
    requires dev.Valid() && !dev.info.testMode && dev.info.sectors * 512 <= SSIZE_MAX + 1
    requires Positions(zone, zoneOfst) && (ofst == zoneOfst || zone.start + ofst <= dev.info.sectors)
    requires zoneOfst <= ofst && (ofst > zoneOfst ==> ofst <= ReadableSectors(zone))
    requires 0 < iobuf && iobuf + io * 512 <= mem.Length <= SSIZE_MAX
    requires 0 < iov.Length && 0 < iovlen && io <= iov.Length * iovlen <= mem.Length
    requires NextCount(zone, ofst, io) != 0 && io > 0
    modifies mem, iov, dev`trace
    ensures old(dev.trace) <= dev.trace
    ensures moved == 0 ==> IoFailed(dev.info, zone, ofst, io, old(dev.trace), dev.trace)
    ensures moved > 0 ==>
              && zone.start + ofst + moved <= dev.info.sectors && NextCount(zone, ofst, io) > 0
              && moved == Min(NextCount(zone, ofst, io), dev.info.sectors - zone.start - ofst)
              && data == dev.disk[(zone.start + ofst) * 512..(zone.start + ofst + moved) * 512]
  {
    hide Admit, Addresses, SameOutside, ReadResult, Outcome, ReadableSectors;
    NextCountExactly(zone, ofst, io);
    ReadableExactly(zone);
    var ret := ReadOnce(dev, mem, iobuf, iov, iovlen, vio, NextCount(zone, ofst, io), zone.start + ofst);
    if ret <= 0 {
      if NextCount(zone, ofst, io) > 0 {
        FailureMeans(dev.info, dev.trace[|old(dev.trace)|..], NextCount(zone, ofst, io), zone.start + ofst, ret);
      }
      return 0, [];
    }
    moved, data := ret, mem[iobuf..iobuf + ret * 512];
  }

  lemma IoMovesSectors(bufsize: nat, iovcnt: nat, lblockSize: nat)
    requires 0 < bufsize && 0 < iovcnt && 0 < lblockSize && lblockSize % 512 == 0 && bufsize % lblockSize == 0
    ensures IoSectors(bufsize, iovcnt) > 0 && IoSectors(bufsize, iovcnt) * 512 <= bufsize * iovcnt
    ensures IoSectors(bufsize, iovcnt) == bufsize * iovcnt / 512 <= iovcnt * (bufsize / 512)
    ensures bufsize / 512 > 0 && iovcnt * (bufsize / 512) <= bufsize * iovcnt
  {
    var q, r := Quotient(bufsize, lblockSize);
    if q == 0 {
      assert false;
    }
    MulGrows(q, lblockSize);
    MulGrows(iovcnt, bufsize);
    assert bufsize * iovcnt >= 512;
    MulMonotone(bufsize / 512, bufsize, iovcnt);
    WholeSectors(bufsize, iovcnt, lblockSize);
  }

  lemma WholeSectors(bufsize: nat, iovcnt: nat, lblockSize: nat)
    requires 0 < lblockSize && lblockSize % 512 == 0 && bufsize % lblockSize == 0
    ensures bufsize * iovcnt / 512 == iovcnt * (bufsize / 512)
  {
    var q, r := Quotient(bufsize, lblockSize);
    var k := lblockSize / 512;
    assert bufsize == (q * k) * 512;
    assert bufsize * iovcnt == (iovcnt * (q * k)) * 512;
  }

  /**
   * After `iocount` full I/Os of `io` sectors, or at the readable end or the end of the device, the file
   * holds the device from the offset on.
   */
  predicate Streamed(zone: Zone, capacity: nat, zoneOfst: nat, ofst: nat, iocount: nat, io: nat, disk: seq<byte>,
                     file: seq<byte>)
  {
    && zoneOfst <= ofst && |file| == (ofst - zoneOfst) * 512 && |disk| == capacity * 512
    && (ofst > zoneOfst ==> ofst <= ReadableSectors(zone) && zone.start + ofst <= capacity
                            && file == disk[(zone.start + zoneOfst) * 512..(zone.start + ofst) * 512])
    && (ofst == zoneOfst <==> iocount == 0) && (iocount > 0 ==> ofst > zoneOfst + (iocount - 1) * io)
    && (ofst == zoneOfst + iocount * io
        || (ofst <= zoneOfst + iocount * io && (ofst == ReadableSectors(zone) || zone.start + ofst == capacity)))
  }

  lemma StreamedStarts(zone: Zone, capacity: nat, zoneOfst: nat, io: nat, disk: seq<byte>)
    requires |disk| == capacity * 512
    ensures Streamed(zone, capacity, zoneOfst, zoneOfst, 0, io, disk, [])
  {
  }

  lemma StreamedFile(zone: Zone, capacity: nat, zoneOfst: nat, ofst: nat, iocount: nat, io: nat, disk: seq<byte>,
                     file: seq<byte>)
    requires Streamed(zone, capacity, zoneOfst, ofst, iocount, io, disk, file)
    ensures var from := (zone.start + zoneOfst) * 512;
            file != [] ==> from + |file| <= |disk| && file == disk[from..from + |file|]
    ensures zoneOfst <= ofst && (ofst > zoneOfst ==> zone.start + ofst <= capacity && ofst <= ReadableSectors(zone))
    ensures |file| == (ofst - zoneOfst) * 512
  {
    hide ReadableSectors;
  }

  lemma StreamedCount(zone: Zone, capacity: nat, zoneOfst: nat, ofst: nat, iocount: nat, io: nat, disk: seq<byte>,
                      file: seq<byte>)
    requires Streamed(zone, capacity, zoneOfst, ofst, iocount, io, disk, file) && io > 0
    ensures zoneOfst <= ofst && CeilDiv(ofst - zoneOfst, io) == iocount
  {
    hide ReadableSectors, CeilDiv;
    assert iocount > 0 ==> iocount * io == (iocount - 1) * io + io;
    CeilDivUnique(ofst - zoneOfst, io, iocount);
  }

  lemma StreamedEnds(zone: Zone, capacity: nat, zoneOfst: nat, ofst: nat, iocount: nat, io: nat, disk: seq<byte>,
                     file: seq<byte>, ionum: nat)
    requires Streamed(zone, capacity, zoneOfst, ofst, iocount, io, disk, file) && io > 0
    requires NextCount(zone, ofst, io) == 0 || iocount == ionum > 0
    requires ionum > 0 ==> iocount <= ionum
    ensures var from := (zone.start + zoneOfst) * 512;
            && (file != [] ==> from + |file| <= |disk| && file == disk[from..from + |file|])
            && |file| == (StreamEnd(zone, capacity, zoneOfst, io, ionum) - zoneOfst) * 512
  {
    hide ReadableSectors;
    if ionum > 0 {
      MulMonotone(iocount, ionum, io);
      if iocount > 0 {
        MulGrows(iocount, io);
      }
    }
  }

  lemma StreamedStep(zone: Zone, capacity: nat, zoneOfst: nat, ofst: nat, iocount: nat, io: nat, disk: seq<byte>,
                     file: seq<byte>, moved: nat)
    requires Streamed(zone, capacity, zoneOfst, ofst, iocount, io, disk, file) && 0 < moved
    requires zone.start + ofst + moved <= capacity && NextCount(zone, ofst, io) > 0
    requires moved == Min(NextCount(zone, ofst, io), capacity - zone.start - ofst)
    ensures Streamed(zone, capacity, zoneOfst, ofst + moved, iocount + 1, io, disk,
                     file + disk[(zone.start + ofst) * 512..(zone.start + ofst + moved) * 512])
    ensures ofst + moved <= ReadableSectors(zone)
  {
    hide ReadableSectors;
    assert (iocount + 1) * io == iocount * io + io;
  }
}
