/** The REPORT ZONES command blocks of the two drivers, and the size of the reply buffer. */
module ZoneCommand {
  import opened Bits
  import opened ByteCodec
  import opened Zones
  import opened ZoneWire

  // ---------------------------------------------------------------------------------------------
  // Command blocks
  // ---------------------------------------------------------------------------------------------

  /** What a drive reads from a command block. */
  datatype Request = Request(lba: nat, allocation: nat, partial: bool, option: nat)

  datatype ParsedReport = Malformed | Report(request: Request)

  /** REPORT ZONES (ZBC), or REPORT ZONES EXT (ZAC) inside ATA PASS-THROUGH (16). */
  function ParseReportCommand(backend: Backend, cdb: seq<byte>): ParsedReport
    requires |cdb| >= 16
  {
    match backend
    case Scsi =>
      if cdb[0] == 0x95 && cdb[1] == 0x00 then
        Report(Request(FromBigEndian(cdb[2..10]), FromBigEndian(cdb[10..14]), cdb[14] >= 0x80, cdb[14] % 0x40))
      else Malformed
    case Ata =>
      if cdb[0] == 0x85 && cdb[1] == 0x0D && cdb[2] == 0x0E && cdb[4] == 0x00 && cdb[13] == 0x40 && cdb[14] == 0x4A then
        Report(Request(CdbLba(cdb), BlockCount(cdb[5], cdb[6]) * 512, cdb[3] >= 0x80, cdb[3] % 0x40))
      else Malformed
  }

  /** A 16-bit block count, most significant byte first. */
  function BlockCount(high: nat, low: nat): nat {
    high * 256 + low
  }

  /** Fills a cleared command block: REPORT ZONES. */
  method BuildScsiCommand(lba: nat, bufsz: nat, ro: nat) returns (cdb: array<byte>)
    requires ro < 0x40 || 0x80 <= ro < 0xC0
    ensures fresh(cdb) && cdb.Length == 32
    ensures cdb[0] == 0x95 && cdb[1] == 0x00 && cdb[14] == ro
    ensures cdb[2..10] == ToBigEndian(lba, 8) && cdb[10..14] == ToBigEndian(bufsz, 4) && Clear(cdb[..], 15, 32)
    ensures ParseReportCommand(Scsi, cdb[..])
         == Report(Request(lba % Pow256(8), CarriedSize(Scsi, bufsz), ro >= 0x80, ro % 0x40))
  {
    hide And, ToBigEndian, Pow256, ParseReportCommand, CarriedSize;
    cdb := new byte[32](_ => 0);
    KeptOption(ro);
    cdb[0], cdb[1] := 0x95, 0x00;
    assert cdb[..2] == [0x95, 0x00];
    SetBytes(cdb, 2, lba, 8);
    ghost var head := cdb[..10];
    assert head == [0x95, 0x00] + ToBigEndian(lba, 8);
    SetBytes(cdb, 10, bufsz, 4);
    cdb[14] := And(ro, 0xBF);
    assert cdb[..14] == head + ToBigEndian(bufsz, 4);
    assert cdb[2..10] == cdb[..14][2..10] == ToBigEndian(lba, 8) && cdb[10..14] == cdb[..14][10..14];
    assert cdb[0] == cdb[..14][0] && cdb[1] == cdb[..14][1];
    ScsiCommandParses(cdb[..], lba, bufsz, ro);
  }

  lemma ScsiCommandParses(cdb: seq<byte>, lba: nat, bufsz: nat, ro: nat)
    requires ro < 0x40 || 0x80 <= ro < 0xC0
    requires |cdb| == 32 && cdb[14] == ro
    requires cdb[..14] == [0x95, 0x00] + ToBigEndian(lba, 8) + ToBigEndian(bufsz, 4)
    ensures ParseReportCommand(Scsi, cdb)
         == Report(Request(lba % Pow256(8), CarriedSize(Scsi, bufsz), ro >= 0x80, ro % 0x40))
  {
    hide FromBigEndian, ToBigEndian, Pow256;
    var front := cdb[..14];
    assert cdb[0] == front[0] && cdb[1] == front[1];
    assert cdb[2..10] == front[2..10] == ToBigEndian(lba, 8);
    assert cdb[10..14] == front[10..14] == ToBigEndian(bufsz, 4);
    BigEndianRoundTrip(lba, 8);
    BigEndianRoundTrip(bufsz, 4);
  }

  /** Fills a cleared command block: REPORT ZONES EXT. */
  method BuildAtaCommand(lba: nat, bufsz: nat, ro: nat) returns (cdb: array<byte>)
    requires ro < 0x40 || 0x80 <= ro < 0xC0
    ensures fresh(cdb) && cdb.Length == 32
    ensures cdb[..7] == [0x85, 0x0D, 0x0E, ro, 0x00, bufsz / 512 / 256 % 256, bufsz / 512 % 256]
    ensures CdbLba(cdb[..]) == lba % Pow256(6) && cdb[13] == 0x40 && cdb[14] == 0x4A && Clear(cdb[..], 15, 32)
    ensures ParseReportCommand(Ata, cdb[..])
         == Report(Request(lba % Pow256(6), CarriedSize(Ata, bufsz), ro >= 0x80, ro % 0x40))
  {
    hide And, CdbLba, Pow256, ParseReportCommand, CarriedSize, PowerOfTwo;
    cdb := new byte[32](_ => 0);
    KeptOption(ro);
    var count := bufsz / 512;
    cdb[0], cdb[1], cdb[2] := 0x85, 0x0D, 0x0E;
    cdb[3], cdb[4] := And(ro, 0xBF), 0x00;
    cdb[5], cdb[6] := count / 256 % 256, count % 256;
    ghost var head := cdb[..7];
    assert head == [0x85, 0x0D, 0x0E, ro, 0x00, count / 256 % 256, count % 256];
    AtaPutLba(cdb, lba);
    ghost var put := cdb[..];
    assert put[..7] == head;
    cdb[13], cdb[14] := 0x40, 0x4A;
    assert cdb[..] == put[13 := 0x40][14 := 0x4A];
    AtaCommandParses(put, head, lba, bufsz, ro);
  }

  lemma AtaCommandParses(put: seq<byte>, head: seq<byte>, lba: nat, bufsz: nat, ro: nat)
    requires ro < 0x40 || 0x80 <= ro < 0xC0
    requires |put| == 32 && put[..7] == head && CdbLba(put) == lba % Pow256(6)
    requires head == [0x85, 0x0D, 0x0E, ro, 0x00, bufsz / 512 / 256 % 256, bufsz / 512 % 256]
    ensures put[13 := 0x40][14 := 0x4A][..7] == head && CdbLba(put[13 := 0x40][14 := 0x4A]) == CdbLba(put)
    ensures ParseReportCommand(Ata, put[13 := 0x40][14 := 0x4A])
         == Report(Request(lba % Pow256(6), CarriedSize(Ata, bufsz), ro >= 0x80, ro % 0x40))
  {
    hide FromLittleEndian, Pow256;
    assert forall k :: 0 <= k < 7 ==> put[k] == head[k];
  }

  /** The allocation length that reaches the drive: 32 bits of bytes, or 16 bits of 512-byte blocks. */
  function CarriedSize(backend: Backend, bufsz: nat): nat {
    match backend
    case Scsi => bufsz % Pow256(4)
    case Ata => BlockCount(bufsz / 512 / 256 % 256, bufsz / 512 % 256) * 512
  }

  /** Exactly the sizes that a command block can express arrive unchanged. */
  lemma SizeCarriedExactly(backend: Backend, bufsz: nat)
    requires bufsz % 512 == 0
    ensures CarriedSize(backend, bufsz) == bufsz
       <==> match backend case Scsi => bufsz < 0x1_0000_0000 case Ata => bufsz / 512 < 0x1_0000
  {
    hide BlockCount, Pow256;
    Powers256();
    var blocks := bufsz / 512;
    TwoBytes(blocks);
    assert bufsz == blocks * 512;
  }

  /** A concrete loss: the buffer for 2^19 - 1 zones, on a device of 2^16-block transfers, arrives empty. */
  lemma LargeReportLost()
    ensures ReportBufferSize(0x1_0000, 0x7_FFFF, true) == 0x200_0000
    ensures CarriedSize(Ata, 0x200_0000) == 0
  {
    hide And, ReportBufferSize;
    RoundedSize(0x1_0000, 0x7_FFFF, true);
  }

  lemma TwoBytes(count: nat)
    ensures BlockCount(count / 256 % 256, count % 256) == count % 0x1_0000
  {
  }

  /** `ro & 0xbf` keeps the partial bit and the option. */
  lemma KeptOption(ro: nat)
    requires ro < 0x40 || 0x80 <= ro < 0xC0
    ensures And(ro, 0xBF) == ro
  {
    hide And;
    assert PowerOfTwo(0x40);
    var high, low := ro / 0x40, ro % 0x40;
    AndSplit(ro, high, low, 0xBF, 2, 0x3F, 0x40);
    AndMask(low, 0x40);
    HighPart(high);
  }

  lemma HighPart(high: nat)
    requires high == 0 || high == 2
    ensures And(high, 2) == high
  {
  }

  /** The masks of the library: the option alone, and the option with the partial bit. */
  lemma OptionMasks(ro: nat)
    ensures And(ro, 0x3F) == ro % 0x40
    ensures Or(ro % 0x40, 0x80) == ro % 0x40 + 0x80
  {
    hide And, Or;
    assert PowerOfTwo(0x40) && PowerOfTwo(0x80);
    AndMask(ro, 0x40);
    OrDisjoint(1, ro % 0x40, 0x80);
  }

  // ---------------------------------------------------------------------------------------------
  // The reply buffer
  // ---------------------------------------------------------------------------------------------

  /** The buffer for `nr` zones, limited by the largest transfer and rounded to 512-byte blocks. */
  function ReportBufferSize(maxRwSectors: nat, nr: nat, fill: bool): nat {
    var size := if fill then Min(U64(maxRwSectors * 512), U32((nr + 1) * 64)) else 0;
    if size < 512 then 512
    else if And(size, 511) != 0 then And(U64(size + 511), 0xFFFF_FFFF_FFFF_FE00)
    else size
  }

  /** The descriptors that fit one reply of the largest size. */
  function DescriptorsPerCommand(maxRwSectors: nat): nat {
    if maxRwSectors == 0 then 7 else 8 * maxRwSectors - 1
  }

  /**
   * The buffer is a positive number of blocks within the largest transfer (or one block), and holds
   * all the descriptors asked for, or as many as the largest transfer can hold.
   */
  lemma BufferHoldsDescriptors(maxRwSectors: nat, nr: nat, fill: bool)
    requires nr + 1 < 0x400_0000 && maxRwSectors < 0x1_0000_0000
    ensures var size := ReportBufferSize(maxRwSectors, nr, fill);
            && size % 512 == 0 && 512 <= size && (size == 512 || size <= maxRwSectors * 512)
            && Min(nr, size / 64 - 1) == (if fill then Min(nr, DescriptorsPerCommand(maxRwSectors)) else Min(nr, 7))
  {
    hide And, ReportBufferSize;
    RoundedSize(maxRwSectors, nr, fill);
  }

  /** Whatever is asked for, and even if its size wraps around 32 bits, the buffer is a positive number of blocks. */
  lemma BufferIsBlocks(maxRwSectors: nat, nr: nat, fill: bool)
    ensures var size := ReportBufferSize(maxRwSectors, nr, fill);
            size % 512 == 0 && 512 <= size
  {
    hide And;
    RoundingMask(if fill then Min(U64(maxRwSectors * 512), U32((nr + 1) * 64)) else 0);
  }

  /** The numbers of zones whose buffer does: 32-bit sizes, which a command can carry. */
  lemma RoomyExactly(backend: Backend, maxRwSectors: nat, nr: nat)
    requires maxRwSectors < 0x1_0000_0000
    ensures Roomy(backend, maxRwSectors, nr)
       <==> nr + 1 < 0x400_0000
            && ReportBufferSize(maxRwSectors, nr, true) < if backend == Scsi then 0x1_0000_0000 else 0x1_0000 * 512
  {
    hide ReportBufferSize, CarriedSize;
    BufferIsBlocks(maxRwSectors, nr, true);
    SizeCarriedExactly(backend, ReportBufferSize(maxRwSectors, nr, true));
  }

  lemma BlocksInWord(blocks: nat)
    ensures blocks * 512 % 0x1_0000_0000 == blocks % 0x80_0000 * 512
  {
    assert blocks * 512 == blocks / 0x80_0000 * 0x1_0000_0000 + blocks % 0x80_0000 * 512;
  }

  /** What arrives of a buffer size is a number of blocks, possibly none. */
  lemma CarriedBlocks(backend: Backend, bufsz: nat)
    requires bufsz % 512 == 0
    ensures CarriedSize(backend, bufsz) % 512 == 0
  {
    hide Pow256, BlockCount;
    Powers256();
    match backend
    case Scsi =>
      BlocksInWord(bufsz / 512);
    case Ata =>
  }

  /** The buffer for `nr` zones holds them, or as many as the largest transfer can, and arrives unchanged. */
  predicate Roomy(backend: Backend, maxRwSectors: nat, nr: nat) {
    && nr + 1 < 0x400_0000
    && CarriedSize(backend, ReportBufferSize(maxRwSectors, nr, true)) == ReportBufferSize(maxRwSectors, nr, true)
  }

  lemma RoundUpMonotone(x: nat, y: nat, small: nat, large: nat)
    requires x <= y && small == (if x < 512 then 512 else (x + 511) / 512 * 512)
    requires large == if y < 512 then 512 else (y + 511) / 512 * 512
    ensures small <= large && small % 512 == 0 && large % 512 == 0
  {
    var p, q := (x + 511) / 512, (y + 511) / 512;
    assert p <= q;
  }

  lemma SmallerBuffer(maxRwSectors: nat, nr: nat, fewer: nat)
    requires maxRwSectors < 0x1_0000_0000 && fewer <= nr && nr + 1 < 0x400_0000
    ensures ReportBufferSize(maxRwSectors, fewer, true) <= ReportBufferSize(maxRwSectors, nr, true)
    ensures ReportBufferSize(maxRwSectors, fewer, true) % 512 == 0 && ReportBufferSize(maxRwSectors, nr, true) % 512 == 0
  {
    hide ReportBufferSize;
    RoundedSize(maxRwSectors, nr, true);
    RoundedSize(maxRwSectors, fewer, true);
    NoWrap((nr + 1) * 64);
    NoWrap((fewer + 1) * 64);
    RoundUpMonotone(Min(maxRwSectors * 512, (fewer + 1) * 64), Min(maxRwSectors * 512, (nr + 1) * 64),
                    ReportBufferSize(maxRwSectors, fewer, true), ReportBufferSize(maxRwSectors, nr, true));
  }

  lemma NoWrap(x: nat)
    requires x < 0x1_0000_0000
    ensures x % 0x1_0000_0000 == x
  {
  }

  lemma RoomyForFewer(backend: Backend, maxRwSectors: nat, nr: nat, fewer: nat)
    requires maxRwSectors < 0x1_0000_0000 && Roomy(backend, maxRwSectors, nr) && fewer <= nr
    ensures Roomy(backend, maxRwSectors, fewer)
  {
    hide ReportBufferSize, CarriedSize;
    SmallerBuffer(maxRwSectors, nr, fewer);
    SizeCarriedExactly(backend, ReportBufferSize(maxRwSectors, nr, true));
    SizeCarriedExactly(backend, ReportBufferSize(maxRwSectors, fewer, true));
  }

  lemma RoundedSize(maxRwSectors: nat, nr: nat, fill: bool)
    requires maxRwSectors < 0x1_0000_0000
    ensures var size := if fill then Min(maxRwSectors * 512, (nr + 1) * 64 % 0x1_0000_0000) else 0;
            ReportBufferSize(maxRwSectors, nr, fill) == if size < 512 then 512 else (size + 511) / 512 * 512
  {
    hide And;
    RoundingMask(if fill then Min(U64(maxRwSectors * 512), U32((nr + 1) * 64)) else 0);
  }

  lemma RoundingMask(size: nat)
    requires size < 0x1_0000_0000
    ensures And(size, 511) == size % 512
    ensures And(U64(size + 511), 0xFFFF_FFFF_FFFF_FE00) == (size + 511) / 512 * 512
  {
    hide And;
    assert PowerOfTwo(512);
    AndMask(size, 512);
    PowerOfTwo64();
    AndClearsLowBits(size + 511, 0xFFFF_FFFF_FFFF_FE00, 512, 0x80_0000_0000_0000);
  }

  // ---------------------------------------------------------------------------------------------
  // Queries in sectors and in logical blocks
  // ---------------------------------------------------------------------------------------------

  /** The device addresses all its sectors in 64-bit byte counts. */
  predicate Geometry(lblock: nat, lbas: nat) {
    && lblock > 0 && lblock % 512 == 0 && lbas * lblock < 0x1_0000_0000_0000_0000
  }

  lemma LbaScales(lblock: nat, lbas: nat, lba: nat)
    requires Geometry(lblock, lbas) && lba <= lbas
    ensures LbaToSector(lblock, lba) == lba * (lblock / 512)
  {
    MulMonotone(lba, lbas, lblock);
    var k := lblock / 512;
    assert lba * lblock == (lba * k) * 512;
  }

  lemma SectorScales(lblock: nat, lbas: nat, sector: nat)
    requires Geometry(lblock, lbas) && sector <= lbas * (lblock / 512)
    ensures lblock / 512 > 0 && SectorToLba(lblock, sector) == sector / (lblock / 512)
  {
    var k := lblock / 512;
    assert lbas * lblock == (lbas * k) * 512;
    var q, r := Quotient(sector, k);
    assert sector * 512 == q * lblock + r * 512;
    DivModUnique(sector * 512, lblock, q, r * 512);
  }

  /** A zone reaches past a sector exactly if its last block reaches past the block of the sector. */
  lemma EndPastSector(lblock: nat, lbas: nat, z: Zone, sector: nat)
    requires Geometry(lblock, lbas) && z.End() <= lbas && sector <= lbas * (lblock / 512)
    ensures Import(lblock, z).End() > sector <==> z.End() > SectorToLba(lblock, sector)
    ensures Import(lblock, z).End() == z.End() * (lblock / 512)
  {
    hide LbaToSector, SectorToLba;
    var k := lblock / 512;
    LbaScales(lblock, lbas, z.length);
    LbaScales(lblock, lbas, z.start);
    SectorScales(lblock, lbas, sector);
    var q, r := Quotient(sector, k);
    ScaledEnd(z.start, z.length, k, q, r);
  }

  lemma ScaledEnd(start: nat, length: nat, k: nat, q: nat, r: nat)
    requires r < k
    ensures start * k + length * k == (start + length) * k
    ensures (start + length) * k > q * k + r <==> start + length > q
  {
    if start + length > q {
      MulMonotone(q + 1, start + length, k);
    } else {
      MulMonotone(start + length, q, k);
    }
  }

  /** Filtering in sectors is filtering in logical blocks, even from a sector inside a block. */
  lemma {:induction false} MatchesImported(lblock: nat, lbas: nat, zones: seq<Zone>, sector: nat, option: nat)
    requires Geometry(lblock, lbas) && sector <= lbas * (lblock / 512)
    requires forall z :: z in zones ==> z.End() <= lbas
    ensures Matches(ImportAll(lblock, zones), sector, option)
         == ImportAll(lblock, Matches(zones, SectorToLba(lblock, sector), option))
  {
    hide Import, SectorToLba;
    if zones != [] {
      MatchesImported(lblock, lbas, zones[1..], sector, option);
      EndPastSector(lblock, lbas, zones[0], sector);
      SelectsImported(lblock, zones[0], option);
      assert ImportAll(lblock, zones)[1..] == ImportAll(lblock, zones[1..]);
      var tail := Matches(zones[1..], SectorToLba(lblock, sector), option);
      assert ([zones[0]] + tail)[1..] == tail;
    }
  }

  lemma SelectsImported(lblock: nat, z: Zone, option: nat)
    ensures Selects(option, Import(lblock, z)) <==> Selects(option, z)
  {
  }

  /** The imported table is gap-free again, up to the capacity in sectors. */
  lemma {:induction false} ContiguousImported(lblock: nat, lbas: nat, zones: seq<Zone>, start: nat)
    requires Geometry(lblock, lbas) && Contiguous(zones, start, lbas)
    ensures Contiguous(ImportAll(lblock, zones), start * (lblock / 512), lbas * (lblock / 512))
  {
    ContiguousBounds(zones, start, lbas);
    if zones != [] {
      ContiguousImported(lblock, lbas, zones[1..], zones[0].End());
      EndPastSector(lblock, lbas, zones[0], 0);
      LbaScales(lblock, lbas, zones[0].start);
      LbaScales(lblock, lbas, zones[0].length);
      MulGrows(zones[0].length, lblock / 512);
      assert ImportAll(lblock, zones)[1..] == ImportAll(lblock, zones[1..]);
    }
  }

  /** `s` is the zone `z` of the drive, in sectors, with a write pointer if its type is 2, 3 or 4. */
  predicate InSectors(lblock: nat, z: Zone, s: Zone) {
    && s.start == z.start * (lblock / 512) && s.length == z.length * (lblock / 512)
    && s.ztype == z.ztype && s.condition == z.condition && s.attributes == z.attributes
    && s.writePointer == if z.ztype in {2, 3, 4} then (z.writePointer * lblock) % 0x1_0000_0000_0000_0000 / 512
                         else 0xFFFF_FFFF_FFFF_FFFF
  }

  /** An imported zone has every position in sectors. */
  lemma ImportedExactly(lblock: nat, lbas: nat, z: Zone)
    requires Geometry(lblock, lbas) && z.End() <= lbas
    ensures InSectors(lblock, z, Import(lblock, z))
    ensures z.ztype in {2, 3, 4} && z.writePointer <= lbas ==>
              Import(lblock, z).writePointer == z.writePointer * (lblock / 512)
  {
    LbaScales(lblock, lbas, z.start);
    LbaScales(lblock, lbas, z.length);
    UnitsExactly(lblock, z.writePointer, 0);
    if z.writePointer <= lbas {
      LbaScales(lblock, lbas, z.writePointer);
    }
  }

  /** What is decoded from the descriptor that a drive prints, in both byte orders. */
  lemma DecodedExactly(backend: Backend, lblock: nat, lbas: nat, z: Zone, filler: seq<byte>)
    requires Encodable(z) && |filler| == 64 && Geometry(lblock, lbas) && z.End() <= lbas
    ensures var d, k := DecodeZone(backend, lblock, PrintZone(backend, z, filler)), lblock / 512;
            && d.start == z.start * k && d.length == z.length * k
            && d.ztype == z.ztype && d.condition == z.condition && d.attributes == z.attributes
            && (z.ztype in {2, 3, 4} && z.writePointer <= lbas ==> d.writePointer == z.writePointer * k)
            && (z.ztype !in {2, 3, 4} ==> d.writePointer == 0xFFFF_FFFF_FFFF_FFFF)
  {
    hide DecodeZone, PrintZone, Import;
    DecodePrinted(backend, lblock, z, filler);
    ImportedExactly(lblock, lbas, z);
  }
}
