/**
 * REPORT ZONES replies: the layouts of ZBC and ZAC, and the decoding loop of the SCSI and ATA
 * backends.
 */
module ZoneWire {
  import opened Bits
  import opened Errors
  import opened ByteCodec
  import opened Zones

  /** The two drivers differ in byte order and in the form of the command block. */
  datatype Backend = Scsi | Ata

  // ---------------------------------------------------------------------------------------------
  // Units
  // ---------------------------------------------------------------------------------------------

  function LbaToSector(lblock: nat, lba: nat): nat {
    if lba == 0 then 0 else U64(lba * lblock) / 512
  }

  function SectorToLba(lblock: nat, sector: nat): nat
    requires lblock > 0
  {
    if sector == 0 then 0 else U64(sector * 512) / lblock
  }

  /** Positions are 64-bit byte counts divided by the unit. */
  lemma UnitsExactly(lblock: nat, lba: nat, sector: nat)
    requires lblock > 0
    ensures LbaToSector(lblock, lba) == (lba * lblock) % 0x1_0000_0000_0000_0000 / 512
    ensures SectorToLba(lblock, sector) == (sector * 512) % 0x1_0000_0000_0000_0000 / lblock
  {
  }

  /** A zone as the drive describes it, in logical blocks, presented in sectors. */
  function Import(lblock: nat, z: Zone): Zone {
    z.(length := LbaToSector(lblock, z.length),
       start := LbaToSector(lblock, z.start),
       writePointer := if z.HasWritePointer() then LbaToSector(lblock, z.writePointer) else NO_WRITE_POINTER)
  }

  function ImportAll(lblock: nat, zones: seq<Zone>): (imported: seq<Zone>)
    ensures |imported| == |zones|
    ensures forall i :: 0 <= i < |zones| ==> imported[i] == Import(lblock, zones[i])
  {
    if zones == [] then [] else [Import(lblock, zones[0])] + ImportAll(lblock, zones[1..])
  }

  // ---------------------------------------------------------------------------------------------
  // Zone descriptors
  // ---------------------------------------------------------------------------------------------

  /** The fields fit the descriptor. */
  predicate Encodable(z: Zone) {
    && z.ztype < 16 && z.condition < 16 && z.attributes < 4
    && z.length < 0x1_0000_0000_0000_0000 && z.start < 0x1_0000_0000_0000_0000
    && z.writePointer < 0x1_0000_0000_0000_0000
  }

  function Encode(backend: Backend, v: nat, n: nat): (bytes: seq<byte>)
    ensures |bytes| == n
  {
    match backend
    case Scsi => ToBigEndian(v, n)
    case Ata => ToLittleEndian(v, n)
  }

  /** A 64-byte zone descriptor; the reserved bits and bytes come from `filler`. */
  function PrintZone(backend: Backend, z: Zone, filler: seq<byte>): (bytes: seq<byte>)
    requires Encodable(z) && |filler| == 64
    ensures |bytes| == 64
  {
    [filler[0] / 16 * 16 + z.ztype, z.condition * 16 + filler[1] % 16 / 4 * 4 + z.attributes] + filler[2..8]
      + Encode(backend, z.length, 8) + Encode(backend, z.start, 8) + Encode(backend, z.writePointer, 8)
      + filler[32..64]
  }

  function GetQword(backend: Backend, buf: seq<byte>): nat
    requires |buf| == 8
  {
    match backend
    case Scsi => FromBigEndian(buf)
    case Ata => AtaGetQword(buf)
  }

  function GetDword(backend: Backend, buf: seq<byte>): nat
    requires |buf| == 4
  {
    match backend
    case Scsi => FromBigEndian(buf)
    case Ata => AtaGetDword(buf)
  }

  lemma QwordRoundTrip(backend: Backend, v: nat)
    requires v < 0x1_0000_0000_0000_0000
    ensures GetQword(backend, Encode(backend, v, 8)) == v
  {
    hide AtaGetQword, ToLittleEndian, ToBigEndian;
    Powers256();
    BigEndianRoundTrip(v, 8);
    LittleEndianRoundTrip(v, 8);
    var le := ToLittleEndian(v, 8);
    AtaGetters(le);
    assert le[..8] == le;
  }

  lemma DwordRoundTrip(backend: Backend, v: nat)
    requires v < 0x1_0000_0000
    ensures GetDword(backend, Encode(backend, v, 4)) == v
  {
    hide AtaGetDword, ToLittleEndian, ToBigEndian;
    Powers256();
    BigEndianRoundTrip(v, 4);
    LittleEndianRoundTrip(v, 4);
    AtaDword(ToLittleEndian(v, 4));
  }

  lemma AtaDword(buf: seq<byte>)
    requires |buf| == 4
    ensures AtaGetDword(buf) == FromLittleEndian(buf)
  {
    var wide := buf + [0, 0, 0, 0];
    AtaGetters(wide);
    assert wide[..4] == buf;
  }

  /** The fields that the decoding loop takes from one descriptor. */
  function DecodeZone(backend: Backend, lblock: nat, buf: seq<byte>): Zone
    requires |buf| == 64
  {
    var z := Zone(LbaToSector(lblock, GetQword(backend, buf[8..16])),
                  LbaToSector(lblock, GetQword(backend, buf[16..24])),
                  LbaToSector(lblock, GetQword(backend, buf[24..32])),
                  And(buf[0], 0x0F), And(buf[1] / 16, 0x0F), And(buf[1], 0x03));
    if z.HasWritePointer() then z else z.(writePointer := NO_WRITE_POINTER)
  }

  /** Decoding inverts the layout, in both byte orders and whatever the reserved bits are. */
  lemma DecodePrinted(backend: Backend, lblock: nat, z: Zone, filler: seq<byte>)
    requires Encodable(z) && |filler| == 64
    ensures DecodeZone(backend, lblock, PrintZone(backend, z, filler)) == Import(lblock, z)
  {
    hide And, GetQword, Encode, LbaToSector;
    var buf := PrintZone(backend, z, filler);
    assert buf[8..16] == Encode(backend, z.length, 8);
    assert buf[16..24] == Encode(backend, z.start, 8);
    assert buf[24..32] == Encode(backend, z.writePointer, 8);
    QwordRoundTrip(backend, z.length);
    QwordRoundTrip(backend, z.start);
    QwordRoundTrip(backend, z.writePointer);
    FlagFields(buf[0], buf[1]);
  }

  /** Where the fields of a descriptor are, and what they mean, in the byte order of each backend. */
  lemma DescriptorLayout(backend: Backend, lblock: nat, buf: seq<byte>)
    requires |buf| == 64
    ensures var z := DecodeZone(backend, lblock, buf);
            var length := if backend == Scsi then FromBigEndian(buf[8..16]) else FromLittleEndian(buf[8..16]);
            var start := if backend == Scsi then FromBigEndian(buf[16..24]) else FromLittleEndian(buf[16..24]);
            var pointer := if backend == Scsi then FromBigEndian(buf[24..32]) else FromLittleEndian(buf[24..32]);
            && z.ztype == buf[0] % 16 && z.condition == buf[1] / 16 && z.attributes == buf[1] % 4
            && z.length == LbaToSector(lblock, length) && z.start == LbaToSector(lblock, start)
            && z.writePointer == if buf[0] % 16 in {2, 3, 4} then LbaToSector(lblock, pointer) else 0xFFFF_FFFF_FFFF_FFFF
  {
    hide And, LbaToSector, FromBigEndian, FromLittleEndian, AtaGetQword;
    FlagFields(buf[0], buf[1]);
    QwordOrder(backend, buf[8..16]);
    QwordOrder(backend, buf[16..24]);
    QwordOrder(backend, buf[24..32]);
  }

  lemma QwordOrder(backend: Backend, buf: seq<byte>)
    requires |buf| == 8
    ensures GetQword(backend, buf) == if backend == Scsi then FromBigEndian(buf) else FromLittleEndian(buf)
  {
    hide FromBigEndian, FromLittleEndian, AtaGetQword;
    AtaGetters(buf);
    assert buf[..8] == buf;
  }

  lemma DwordOrder(backend: Backend, buf: seq<byte>)
    requires |buf| == 4
    ensures GetDword(backend, buf) == if backend == Scsi then FromBigEndian(buf) else FromLittleEndian(buf)
  {
    hide FromBigEndian, FromLittleEndian, AtaGetDword;
    AtaDword(buf);
  }

  lemma FlagFields(b0: byte, b1: byte)
    ensures And(b0, 0x0F) == b0 % 16 && And(b1 / 16, 0x0F) == b1 / 16 && And(b1, 0x03) == b1 % 4
  {
    hide And;
    assert PowerOfTwo(16) && PowerOfTwo(4);
    AndMask(b0, 16);
    AndMask(b1 / 16, 16);
    AndMask(b1, 4);
  }

  // ---------------------------------------------------------------------------------------------
  // Replies
  // ---------------------------------------------------------------------------------------------

  predicate AllEncodable(zones: seq<Zone>) {
    forall z :: z in zones ==> Encodable(z)
  }

  function PrintZones(backend: Backend, zones: seq<Zone>, filler: seq<byte>): (bytes: seq<byte>)
    requires AllEncodable(zones) && |filler| == 64 * |zones|
    ensures |bytes| == 64 * |zones|
  {
    if zones == [] then []
    else PrintZone(backend, zones[0], filler[..64]) + PrintZones(backend, zones[1..], filler[64..])
  }

  /** The parameter data: list length, maximum LBA, reserved bytes, then the descriptors. */
  function PrintReport(backend: Backend, listLength: nat, maxLba: nat, zones: seq<Zone>, filler: seq<byte>)
    : (bytes: seq<byte>)
    requires AllEncodable(zones) && |filler| == 64 + 64 * |zones|
    ensures |bytes| == 64 + 64 * |zones|
  {
    Encode(backend, listLength, 4) + filler[4..8] + Encode(backend, maxLba, 8) + filler[16..64]
      + PrintZones(backend, zones, filler[64..])
  }

  lemma {:induction false} PrintedZoneAt(backend: Backend, zones: seq<Zone>, filler: seq<byte>, i: nat)
    requires AllEncodable(zones) && |filler| == 64 * |zones| && i < |zones|
    ensures PrintZones(backend, zones, filler)[64 * i..64 * i + 64]
         == PrintZone(backend, zones[i], filler[64 * i..64 * i + 64])
  {
    hide PrintZone;
    var first, others := PrintZone(backend, zones[0], filler[..64]), PrintZones(backend, zones[1..], filler[64..]);
    if i == 0 {
      assert (first + others)[0..64] == first;
    } else {
      PrintedZoneAt(backend, zones[1..], filler[64..], i - 1);
      SliceAfter(first, others, 64 * i, 64 * i + 64);
      SliceAfter(filler[..64], filler[64..], 64 * i, 64 * i + 64);
      assert filler[..64] + filler[64..] == filler;
    }
  }

  /** The number of zones that the decoder stores: what the header says, cut to the array and the bytes. */
  function ZonesReceived(backend: Backend, reply: seq<byte>, wanted: nat): nat
    requires |reply| >= 64
  {
    Min(Min(GetDword(backend, reply[..4]) / 64, wanted), (|reply| - 64) / 64)
  }

  function DecodeZones(backend: Backend, lblock: nat, reply: seq<byte>, n: nat): (zones: seq<Zone>)
    requires |reply| >= 64 + 64 * n
    ensures |zones| == n
  {
    seq(n, i requires 0 <= i < n => DecodeZone(backend, lblock, reply[64 + 64 * i..128 + 64 * i]))
  }

  /**
   * The decoding loop, which walks the received bytes and fills the array from `at`. Without an array
   * (`fill` false) only the list length is used.
   */
  method DecodeReply(backend: Backend, lblock: nat, reply: seq<byte>, zones: array<Zone>, at: nat, wanted: nat, fill: bool)
    returns (ret: int, nz: nat)
    requires at + wanted <= zones.Length
    modifies zones
    ensures |reply| < 64 ==> ret == -EIO && nz == 0
    ensures |reply| >= 64 ==> ret == 0
    ensures |reply| >= 64 && !fill ==> nz == GetDword(backend, reply[..4]) / 64
    ensures |reply| >= 64 && fill ==> nz == Min(Min(GetDword(backend, reply[..4]) / 64, wanted), (|reply| - 64) / 64)
    ensures |reply| >= 64 && fill ==>
              nz == ZonesReceived(backend, reply, wanted) && zones[at..at + nz] == DecodeZones(backend, lblock, reply, nz)
    ensures zones[..at] == old(zones[..at])
    ensures !fill ==> zones[..] == old(zones[..])
  {
    hide DecodeZone, GetDword;
    if |reply| < 64 {
      return -EIO, 0;
    }
    ret, nz := 0, GetDword(backend, reply[..4]) / 64;
    if !fill || nz == 0 {
      return;
    }
    nz := Min(nz, wanted);
    nz := Min(nz, (|reply| - 64) / 64);
    var pos := 64;
    for i := 0 to nz
      invariant pos == 64 + 64 * i
      invariant zones[..at] == old(zones[..at])
      invariant zones[at..at + i] == DecodeZones(backend, lblock, reply, i)
    {
      zones[at + i] := DecodeZone(backend, lblock, reply[pos..pos + 64]);
      pos := pos + 64;
      assert zones[at..at + i + 1] == zones[at..at + i] + [zones[at + i]];
    }
  }

  /** A reply that starts like a printed report decodes to the zones printed in it. */
  lemma ReplyDecodes(backend: Backend, lblock: nat, reply: seq<byte>, listLength: nat, maxLba: nat, zones: seq<Zone>,
                     filler: seq<byte>, pad: seq<byte>, n: nat)
    requires AllEncodable(zones) && |filler| == 64 + 64 * |zones| && listLength < 0x1_0000_0000
    requires reply <= PrintReport(backend, listLength, maxLba, zones, filler) + pad
    requires |reply| >= 64 + 64 * n && n <= |zones|
    ensures GetDword(backend, reply[..4]) == listLength
    ensures DecodeZones(backend, lblock, reply, n) == ImportAll(lblock, zones[..n])
  {
    hide DecodeZone, PrintZone, Encode, GetDword, PrintZones, Import, AllEncodable, Encodable;
    var full, body := PrintReport(backend, listLength, maxLba, zones, filler) + pad,
                      PrintZones(backend, zones, filler[64..]);
    assert reply[..4] == full[..4] == Encode(backend, listLength, 4);
    DwordRoundTrip(backend, listLength);
    forall i | 0 <= i < n
      ensures DecodeZones(backend, lblock, reply, n)[i] == Import(lblock, zones[i])
    {
      var buf := reply[64 + 64 * i..128 + 64 * i];
      assert buf == full[64 + 64 * i..128 + 64 * i] == body[64 * i..64 * i + 64];
      PrintedZoneAt(backend, zones, filler[64..], i);
      IsEncodable(zones, i);
      DecodePrinted(backend, lblock, zones[i], filler[64..][64 * i..64 * i + 64]);
    }
  }

  lemma IsEncodable(zones: seq<Zone>, i: nat)
    requires AllEncodable(zones) && i < |zones|
    ensures Encodable(zones[i])
  {
  }
}
