/** The command blocks of zone operations: the SCSI ZBC OUT command, and ZAC MANAGEMENT OUT of ATA. */
module ZoneOpCommand {
  import opened Bits
  import opened ByteCodec
  import opened ZoneWire
  import opened ZoneCommand

  datatype ZoneOp = Close | Finish | Open | Reset

  /** The service action of SCSI, which is also the feature byte of ATA. */
  function ActionOf(op: ZoneOp): (action: byte)
    ensures 1 <= action <= 4 && OpOf(action) == op
  {
    match op
    case Close => 0x01
    case Finish => 0x02
    case Open => 0x03
    case Reset => 0x04
  }

  function OpOf(action: nat): ZoneOp
    requires 1 <= action <= 4
  {
    if action == 1 then Close else if action == 2 then Finish else if action == 3 then Open else Reset
  }

  /** The codes of the operations. */
  lemma ActionCodes()
    ensures ActionOf(Close) == 0x01 && ActionOf(Finish) == 0x02 && ActionOf(Open) == 0x03 && ActionOf(Reset) == 0x04
    ensures OpOf(0x01) == Close && OpOf(0x02) == Finish && OpOf(0x03) == Open && OpOf(0x04) == Reset
  {
  }

  /** What a drive reads from a command block; for all zones, neither the start nor the count matters. */
  datatype OpRequest = AllZones(op: ZoneOp) | ZonesFrom(op: ZoneOp, lba: nat, count: nat)

  datatype ParsedOp = Unrecognized | Operation(request: OpRequest)

  function ParseOpCommand(backend: Backend, cdb: seq<byte>): ParsedOp
    requires |cdb| >= 16
  {
    match backend
    case Scsi =>
      if cdb[0] != 0x94 || !(1 <= cdb[1] <= 4) then Unrecognized
      else if cdb[14] % 2 == 1 then Operation(AllZones(OpOf(cdb[1])))
      else Operation(ZonesFrom(OpOf(cdb[1]), FromBigEndian(cdb[2..10]), FromBigEndian(cdb[12..14])))
    case Ata =>
      if cdb[0] != 0x85 || cdb[1] != 0x07 || cdb[2] != 0 || cdb[13] != 0x40 || cdb[14] != 0x9F || !(1 <= cdb[4] <= 4)
      then Unrecognized
      else if cdb[3] % 2 == 1 then Operation(AllZones(OpOf(cdb[4])))
      else Operation(ZonesFrom(OpOf(cdb[4]), CdbLba(cdb), BlockCount(cdb[5], cdb[6])))
  }

  /** The start block that a command block can carry: 64 bits, or 48. */
  function CarriedLba(backend: Backend, lba: nat): nat {
    lba % Pow256(if backend == Scsi then 8 else 6)
  }

  /** The request that arrives at the drive. */
  function CarriedOp(backend: Backend, op: ZoneOp, lba: nat, count: nat, all: bool): OpRequest {
    if all then AllZones(op) else ZonesFrom(op, CarriedLba(backend, lba), count % Pow256(2))
  }

  /** The zones that a drive operates on for a count field, where 0 means one zone. */
  function ZonesMeant(field: nat): nat {
    if field == 0 then 1 else field
  }

  lemma CarriedLbaExactly(backend: Backend, lba: nat)
    ensures CarriedLba(backend, lba) == lba
       <==> lba < if backend == Scsi then 0x1_0000_0000_0000_0000 else 0x1_0000_0000_0000
  {
    Powers256();
  }

  /** Fills a cleared command block with a SCSI zone operation. */
  method BuildScsiOp(op: ZoneOp, lba: nat, count: nat, all: bool) returns (cdb: array<byte>)
    ensures fresh(cdb) && cdb.Length == 32
    ensures cdb[0] == 0x94 && cdb[14] == (if all then 1 else 0)
    ensures cdb[1] == match op case Close => 0x01 case Finish => 0x02 case Open => 0x03 case Reset => 0x04
    ensures cdb[12..14] == ToBigEndian(count, 2) && (!all ==> cdb[2..10] == ToBigEndian(lba, 8))
    ensures Clear(cdb[..], if all then 2 else 10, 12) && Clear(cdb[..], 15, 32)
    ensures ParseOpCommand(Scsi, cdb[..]) == Operation(CarriedOp(Scsi, op, lba, count, all))
  {
    hide ToBigEndian, Pow256, ParseOpCommand, CarriedOp, ActionOf, Overwrite, Clear;
    cdb := new byte[32](_ => 0);
    cdb[0], cdb[1] := 0x94, ActionOf(op);
    if all {
      cdb[14] := 0x01;
    }
    ghost var base := cdb[..];
    if !all {
      SetBytes(cdb, 2, lba, 8);
    }
    SetBytes(cdb, 12, count, 2);
    ScsiOpBytes(base, lba, count, all);
    ActionCodes();
    ScsiOpParses(cdb[..], op, lba, count, all);
  }

  /** The bytes of the command block, after the stores into a block that is otherwise clear. */
  lemma ScsiOpBytes(base: seq<byte>, lba: nat, count: nat, all: bool)
    requires |base| == 32 && (forall k :: 2 <= k < 32 && k != 14 ==> base[k] == 0)
    ensures var put := if all then base else Overwrite(base, 2, ToBigEndian(lba, 8));
            var cdb := Overwrite(put, 12, ToBigEndian(count, 2));
            && cdb[0] == base[0] && cdb[1] == base[1] && cdb[14] == base[14]
            && (!all ==> cdb[2..10] == ToBigEndian(lba, 8)) && cdb[12..14] == ToBigEndian(count, 2)
            && Clear(cdb, if all then 2 else 10, 12) && Clear(cdb, 15, 32)
  {
    hide ToBigEndian;
    var put := if all then base else Overwrite(base, 2, ToBigEndian(lba, 8));
    OverwriteKeeps(put, 12, ToBigEndian(count, 2), 2, 10);
    OverwriteAt(put, 12, ToBigEndian(count, 2));
    if !all {
      OverwriteAt(base, 2, ToBigEndian(lba, 8));
    }
  }

  lemma ScsiOpParses(cdb: seq<byte>, op: ZoneOp, lba: nat, count: nat, all: bool)
    requires |cdb| == 32 && cdb[0] == 0x94 && cdb[1] == ActionOf(op) && cdb[14] == (if all then 1 else 0)
    requires (!all ==> cdb[2..10] == ToBigEndian(lba, 8)) && cdb[12..14] == ToBigEndian(count, 2)
    ensures ParseOpCommand(Scsi, cdb) == Operation(CarriedOp(Scsi, op, lba, count, all))
  {
    hide FromBigEndian, ToBigEndian, Pow256, ActionOf, OpOf;
    BigEndianRoundTrip(lba, 8);
    BigEndianRoundTrip(count, 2);
  }

  /** Fills a cleared command block with an ATA zone operation. */
  method BuildAtaOp(op: ZoneOp, lba: nat, count: nat, all: bool) returns (cdb: array<byte>)
    ensures fresh(cdb) && cdb.Length == 32
    ensures cdb[0] == 0x85 && cdb[1] == 0x07 && cdb[2] == 0x00 && cdb[3] == (if all then 1 else 0)
    ensures cdb[4] == match op case Close => 0x01 case Finish => 0x02 case Open => 0x03 case Reset => 0x04
    ensures cdb[5] == count / 256 % 256 && cdb[6] == count % 256 && cdb[13] == 0x40 && cdb[14] == 0x9F
    ensures (if all then Clear(cdb[..], 7, 13) else CdbLba(cdb[..]) == lba % Pow256(6)) && Clear(cdb[..], 15, 32)
    ensures ParseOpCommand(Ata, cdb[..]) == Operation(CarriedOp(Ata, op, lba, count, all))
  {
    hide CdbLba, Pow256, ParseOpCommand, CarriedOp, ActionOf, PowerOfTwo;
    cdb := new byte[32](_ => 0);
    cdb[0], cdb[1], cdb[4] := 0x85, 0x07, ActionOf(op);
    if all {
      cdb[3] := 0x01;
    }
    ghost var head := cdb[..7];
    assert head == [0x85, 0x07, 0x00, if all then 1 else 0, ActionOf(op), 0x00, 0x00];
    if !all {
      AtaPutLba(cdb, lba);
    }
    ghost var put := cdb[..];
    assert put[..7] == head;
    cdb[5], cdb[6] := count / 256 % 256, count % 256;
    cdb[13], cdb[14] := 0x40, 0x9F;
    assert cdb[..] == put[5 := count / 256 % 256][6 := count % 256][13 := 0x40][14 := 0x9F];
    ActionCodes();
    AtaOpParses(cdb[..], put, head, op, lba, count, all);
  }

  lemma AtaOpParses(cdb: seq<byte>, put: seq<byte>, head: seq<byte>, op: ZoneOp, lba: nat, count: nat, all: bool)
    requires |put| == 32 && put[..7] == head
    requires head == [0x85, 0x07, 0x00, if all then 1 else 0, ActionOf(op), 0x00, 0x00]
    requires cdb == put[5 := count / 256 % 256][6 := count % 256][13 := 0x40][14 := 0x9F]
    requires !all ==> CdbLba(put) == lba % Pow256(6)
    ensures cdb[0] == 0x85 && cdb[1] == 0x07 && cdb[2] == 0 && cdb[3] == head[3] && cdb[4] == head[4]
    ensures CdbLba(cdb) == CdbLba(put)
    ensures ParseOpCommand(Ata, cdb) == Operation(CarriedOp(Ata, op, lba, count, all))
  {
    hide FromLittleEndian, ActionOf, OpOf, BlockCount;
    TwoBytes(count);
    Powers256();
    assert forall k :: 0 <= k < 5 ==> cdb[k] == put[k] == head[k];
  }
}
