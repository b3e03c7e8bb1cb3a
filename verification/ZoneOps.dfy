/** Zone operations on a group of zones: the COUNT of the command, and its emulation zone by zone. */
module ZoneOps {
  import opened Bits
  import opened Errors
  import opened ByteCodec
  import opened Zones
  import opened ZoneWire
  import opened ZoneCommand
  import opened ZoneOpCommand
  import opened ZoneReport

  /** What an operation does to one zone; the state machine behind it belongs to the drive. */
  datatype Reaction = Changed(condition: nat, writePointer: nat) | Denied(error: int)

  type Effect = Zone -> Reaction

  type Effects = ZoneOp -> Effect

  function Apply(effect: Effect, z: Zone): Zone {
    match effect(z)
    case Changed(condition, writePointer) => z.(condition := condition, writePointer := writePointer)
    case Denied(_) => z
  }

  /** A zone that accepts an operation takes the new condition and pointer, and one that denies it nothing. */
  lemma ApplyExactly(effect: Effect, z: Zone)
    ensures match effect(z)
            case Changed(c, w) => Apply(effect, z) == Zone(z.length, z.start, w, z.ztype, c, z.attributes)
            case Denied(_) => Apply(effect, z) == z
  {
  }

  /** Errors are negative, and changed zones still fit a descriptor. */
  ghost predicate Proper(effect: Effect) {
    forall z ::
      && (effect(z).Denied? ==> effect(z).error < 0)
      && (effect(z).Changed? && Encodable(z) ==> Encodable(Apply(effect, z)))
  }

  ghost predicate AllProper(effects: Effects) {
    forall op :: Proper(effects(op))
  }

  datatype Result = Result(table: seq<Zone>, error: int)

  /** The operation on `n` zones from index `i` on, in order, up to the first zone that denies it. */
  function OpRun(table: seq<Zone>, i: nat, n: nat, effect: Effect): (r: Result)
    ensures |r.table| == |table|
    decreases n
  {
    if n == 0 then Result(table, 0)
    else if i >= |table| then Result(table, -EIO)
    else
      match effect(table[i])
      case Denied(error) => Result(table, error)
      case Changed(_, _) => OpRun(table[i := Apply(effect, table[i])], i + 1, n - 1, effect)
  }

  /** The index of the zone that starts at `lba`, or the length of the table. */
  function IndexAt(table: seq<Zone>, lba: nat): (i: nat)
    ensures i <= |table|
    ensures i < |table| ==> table[i].start == lba
  {
    if table == [] then 0 else if table[0].start == lba then 0 else 1 + IndexAt(table[1..], lba)
  }

  function OpAt(table: seq<Zone>, lba: nat, n: nat, effect: Effect): Result {
    var i := IndexAt(table, lba);
    if i == |table| then Result(table, -EIO) else OpRun(table, i, n, effect)
  }

  function OpAll(table: seq<Zone>, effect: Effect): (all: seq<Zone>)
    ensures |all| == |table|
  {
    if table == [] then [] else [Apply(effect, table[0])] + OpAll(table[1..], effect)
  }

  /** An operation on all zones changes each of them as it reacts, and passes over those that deny it. */
  lemma {:induction false} OpAllExactly(table: seq<Zone>, effect: Effect, j: nat)
    requires j < |table|
    ensures |OpAll(table, effect)| == |table|
    ensures match effect(table[j])
            case Changed(c, w) => OpAll(table, effect)[j] == table[j].(condition := c, writePointer := w)
            case Denied(_) => OpAll(table, effect)[j] == table[j]
  {
    if j > 0 {
      OpAllExactly(table[1..], effect, j - 1);
    }
  }

  /** What a drive does when it receives a command. */
  function Executed(table: seq<Zone>, request: OpRequest, effects: Effects): Result {
    match request
    case AllZones(op) => Result(OpAll(table, effects(op)), 0)
    case ZonesFrom(op, lba, count) => OpAt(table, lba, ZonesMeant(count), effects(op))
  }

  /** The zones that a drive operates on for a counted command, from the count field that it carries. */
  function WireCount(count: nat): nat {
    ZonesMeant(CarriedOp(Scsi, Reset, 0, count, false).count)
  }

  /**
   * A run changes exactly the zones before the first one that denies the operation, and all of them if
   * there is none; positions never change.
   */
  lemma {:induction false} OpRunExactly(table: seq<Zone>, i: nat, n: nat, effect: Effect) returns (done: nat)
    ensures done <= n && (done > 0 ==> i + done <= |table|)
    ensures var r := OpRun(table, i, n, effect);
            && (forall j :: 0 <= j < |table| ==> r.table[j] == if i <= j < i + done then Apply(effect, table[j]) else table[j])
            && (forall j :: i <= j < i + done ==> effect(table[j]).Changed?)
            && (done == n ==> r.error == 0)
            && (done < n ==> if i + done < |table| then effect(table[i + done]) == Denied(r.error) else r.error == -EIO)
    decreases n
  {
    done := 0;
    if n > 0 && i < |table| && effect(table[i]).Changed? {
      var next := table[i := Apply(effect, table[i])];
      var more := OpRunExactly(next, i + 1, n - 1, effect);
      done := more + 1;
    }
  }

  /** A counted command runs over the zones asked for exactly if the count fits its 16-bit field. */
  lemma WireCountExactly(count: nat)
    requires count > 0
    ensures WireCount(count) == count <==> count < 0x1_0000
    ensures 0 < WireCount(count) <= count
  {
    Powers256();
  }

  /** A counted command does what the emulation does, on every drive and whatever the operation. */
  ghost predicate CountAgrees(count: nat) {
    forall table, end, i: nat, effect |
      Contiguous(table, 0, end) && i < |table| && EqualLengths(table, i, count) && Proper(effect) ::
      OpRun(table, i, WireCount(count), effect) == OpRun(table, i, count, effect)
  }

  /** Counted and emulated operations agree exactly if the count fits its 16-bit field. */
  lemma CountAgreesExactly(count: nat)
    requires count > 0
    ensures CountAgrees(count) <==> count < 0x1_0000
  {
    hide OpRun, WireCount, Contiguous, EqualLengths;
    WireCountExactly(count);
    if count >= 0x1_0000 {
      var n := WireCount(count);
      var table, accept: Effect := Uniform(0, n), (z: Zone) => Changed(z.condition, z.writePointer);
      UniformTable(0, n, count);
      var done := OpRunExactly(table, 0, n, accept);
      var more := OpRunExactly(table, 0, count, accept);
      AcceptProper(accept);
      assert OpRun(table, 0, n, accept) != OpRun(table, 0, count, accept);
      assert Contiguous(table, 0, n) && EqualLengths(table, 0, count);
    }
  }

  lemma AcceptProper(accept: Effect)
    requires forall z :: accept(z) == Changed(z.condition, z.writePointer)
    ensures Proper(accept)
  {
    forall z: Zone
      ensures Apply(accept, z) == z
    {
    }
  }

  /** `n` zones of one block. */
  function Uniform(start: nat, n: nat): (table: seq<Zone>)
    ensures |table| == n
    decreases n
  {
    if n == 0 then [] else [Zone(1, start, start, ZT_SEQUENTIAL_REQ, ZC_EMPTY, 0)] + Uniform(start + 1, n - 1)
  }

  lemma {:induction false} UniformTable(start: nat, n: nat, count: nat)
    ensures Contiguous(Uniform(start, n), start, start + n)
    ensures forall j :: 0 <= j < n ==> Uniform(start, n)[j].length == 1
    ensures n > 0 ==> EqualLengths(Uniform(start, n), 0, count)
    decreases n
  {
    if n > 0 {
      UniformTable(start + 1, n - 1, count);
      assert Uniform(start, n)[1..] == Uniform(start + 1, n - 1);
    }
  }

  /** A concrete case: a counted command for 65537 zones is one for a single zone. */
  lemma LargeCountLost()
    ensures WireCount(0x1_0001) == 1
  {
    Powers256();
  }

  /** The next `count` zones have the length of the first, except the last of them. */
  predicate EqualLengths(table: seq<Zone>, i: nat, count: nat) {
    forall j :: i <= j < |table| && j + 1 < i + count ==> table[j].length == table[i].length
  }

  /** Steps of the first length hit the zone starts exactly if the lengths are equal. */
  lemma {:induction false} TargetsExactly(table: seq<Zone>, start: nat, end: nat, i: nat, count: nat)
    requires Contiguous(table, start, end) && i + count <= |table|
    ensures (forall j :: 0 <= j < count ==> table[i + j].start == table[i].start + j * table[i].length)
       <==> EqualLengths(table, i, count)
    decreases count
  {
    if count > 1 {
      TargetsExactly(table, start, end, i, count - 1);
      Adjacent(table, start, end, i + count - 2);
      assert (count - 1) * table[i].length == (count - 2) * table[i].length + table[i].length;
      assert table[i + (count - 1)].start == table[i + (count - 2)].start + table[i + (count - 2)].length;
      if EqualLengths(table, i, count) {
        assert EqualLengths(table, i, count - 1);
      } else if EqualLengths(table, i, count - 1) {
        assert table[i + count - 2].length != table[i].length;
      }
    }
  }

  /** A concrete case: after zones of 10 and 20 blocks, the emulation aims its third command at no zone. */
  lemma UnequalLengthsMissed(effect: Effect)
    ensures var table := [Zone(10, 0, 0, 2, 1, 0), Zone(20, 10, 10, 2, 1, 0), Zone(10, 30, 30, 2, 1, 0)];
            && Contiguous(table, 0, 40) && !EqualLengths(table, 0, 3)
            && OpAt(table, 0 + 2 * table[0].length, 1, effect) == Result(table, -EIO)
  {
    var table := [Zone(10, 0, 0, 2, 1, 0), Zone(20, 10, 10, 2, 1, 0), Zone(10, 30, 30, 2, 1, 0)];
    assert table[1].length != table[0].length;
    assert table[1..] == [table[1], table[2]] && table[1..][1..] == [table[2]] && table[1..][1..][1..] == [];
    assert IndexAt(table[1..][1..], 20) == 1;
    assert IndexAt(table[1..], 20) == 2;
  }

  lemma {:induction false} Adjacent(table: seq<Zone>, start: nat, end: nat, j: nat)
    requires Contiguous(table, start, end) && j < |table|
    ensures table[j].End() == if j + 1 < |table| then table[j + 1].start else end
  {
    if j > 0 {
      Adjacent(table[1..], table[0].End(), end, j - 1);
    } else if |table| > 1 {
      assert table[1..][0] == table[1];
    }
  }

  // ---------------------------------------------------------------------------------------------
  // The drive and the group operation
  // ---------------------------------------------------------------------------------------------

  /** The tables differ at most in conditions and write pointers. */
  predicate SamePositions(before: seq<Zone>, after: seq<Zone>) {
    && |before| == |after|
    && forall j :: 0 <= j < |before| ==> before[j].start == after[j].start && before[j].length == after[j].length
  }

  lemma {:induction false} PositionsDecide(before: seq<Zone>, after: seq<Zone>, start: nat, end: nat, lba: nat)
    requires SamePositions(before, after)
    ensures Contiguous(before, start, end) <==> Contiguous(after, start, end)
    ensures IndexAt(before, lba) == IndexAt(after, lba)
  {
    if before != [] {
      assert forall j :: 0 <= j < |before| - 1 ==> before[1..][j] == before[j + 1] && after[1..][j] == after[j + 1];
      PositionsDecide(before[1..], after[1..], before[0].End(), end, lba);
    }
  }

  lemma {:induction false} OpRunKeeps(table: seq<Zone>, i: nat, n: nat, effect: Effect)
    requires AllEncodable(table) && Proper(effect)
    ensures SamePositions(table, OpRun(table, i, n, effect).table)
    ensures AllEncodable(OpRun(table, i, n, effect).table) && OpRun(table, i, n, effect).error <= 0
    decreases n
  {
    if n > 0 && i < |table| && effect(table[i]).Changed? {
      assert table[i] in table;
      var next := table[i := Apply(effect, table[i])];
      OpRunKeeps(next, i + 1, n - 1, effect);
    }
  }

  lemma {:induction false} OpAllKeeps(table: seq<Zone>, effect: Effect)
    requires AllEncodable(table) && Proper(effect)
    ensures SamePositions(table, OpAll(table, effect)) && AllEncodable(OpAll(table, effect))
  {
    if table != [] {
      OpAllKeeps(table[1..], effect);
      assert table[0] in table;
      assert forall j :: 0 < j < |table| ==> table[j] == table[1..][j - 1];
    }
  }

  /** The drive executes a well-formed command. */
  method ExecuteOp(drive: ZonedDrive, cdb: array<byte>, effects: Effects) returns (ret: int)
    requires drive.Valid() && AllProper(effects) && cdb.Length >= 16
    requires ParseOpCommand(drive.backend, cdb[..]).Operation?
    modifies drive`table
    ensures drive.Valid() && SamePositions(old(drive.table), drive.table) && ret <= 0
    ensures Executed(old(drive.table), ParseOpCommand(drive.backend, cdb[..]).request, effects) == Result(drive.table, ret)
  {
    hide ParseOpCommand, Contiguous, Geometry, Proper;
    var table, request := drive.table, ParseOpCommand(drive.backend, cdb[..]).request;
    ExecutedKeeps(table, request, effects);
    var r := Executed(table, request, effects);
    drive.table, ret := r.table, r.error;
    PositionsDecide(table, drive.table, 0, drive.lbas, 0);
  }

  lemma ExecutedKeeps(table: seq<Zone>, request: OpRequest, effects: Effects)
    requires AllEncodable(table) && AllProper(effects)
    ensures var r := Executed(table, request, effects);
            SamePositions(table, r.table) && AllEncodable(r.table) && r.error <= 0
  {
    hide Proper;
    match request
    case AllZones(op) => OpAllKeeps(table, effects(op));
    case ZonesFrom(op, lba, count) => OpRunKeeps(table, IndexAt(table, lba), ZonesMeant(count), effects(op));
  }

  /** The zone operation of a driver: one command for all zones, or for those its start and count name. */
  method DriverZoneOp(drive: ZonedDrive, sector: nat, count: nat, op: ZoneOp, all: bool, effects: Effects)
    returns (ret: int)
    requires drive.Valid() && AllProper(effects)
    modifies drive`table
    ensures drive.Valid() && SamePositions(old(drive.table), drive.table) && ret <= 0
    ensures Executed(old(drive.table), CarriedOp(drive.backend, op, SectorToLba(drive.lblock, sector), count, all), effects)
         == Result(drive.table, ret)
  {
    hide ParseOpCommand, CarriedOp, Executed, AllProper, SamePositions, SectorToLba;
    var lba := SectorToLba(drive.lblock, sector);
    var cdb: array<byte>;
    match drive.backend {
      case Scsi => cdb := BuildScsiOp(op, lba, count, all);
      case Ata => cdb := BuildAtaOp(op, lba, count, all);
    }
    ret := ExecuteOp(drive, cdb, effects);
  }

  /** A command for one zone, or for the number of zones that its count field means. */
  lemma CommandsMean(table: seq<Zone>, backend: Backend, op: ZoneOp, lba: nat, count: nat, effects: Effects)
    ensures Executed(table, CarriedOp(backend, op, lba, 0, false), effects)
         == OpAt(table, CarriedLba(backend, lba), 1, effects(op))
    ensures Executed(table, CarriedOp(backend, op, lba, count, false), effects)
         == OpAt(table, CarriedLba(backend, lba), WireCount(count), effects(op))
    ensures Executed(table, CarriedOp(backend, op, lba, count, true), effects) == Result(OpAll(table, effects(op)), 0)
  {
    hide OpAt, OpAll;
    Powers256();
  }

  /** The first block of zone `j`, or the end of the drive after the last zone. */
  function StartOf(table: seq<Zone>, lbas: nat, j: nat): nat {
    if j < |table| then table[j].start else lbas
  }

  lemma {:induction false} IndexOfStart(table: seq<Zone>, start: nat, end: nat, j: nat)
    requires Contiguous(table, start, end) && j <= |table|
    ensures IndexAt(table, StartOf(table, end, j)) == j
  {
    ContiguousBounds(table, start, end);
    if table != [] && j > 0 {
      IndexOfStart(table[1..], table[0].End(), end, j - 1);
    }
  }

  /** The start block of zone `j` is carried by a command block, if the end of the drive is. */
  predicate Addressable(table: seq<Zone>, backend: Backend, lbas: nat, j: nat) {
    j < |table| || CarriedLba(backend, lbas) == lbas
  }

  lemma StartCarried(table: seq<Zone>, backend: Backend, lbas: nat, j: nat)
    requires Contiguous(table, 0, lbas) && Addressable(table, backend, lbas, j)
    requires lbas <= if backend == Scsi then 0x1_0000_0000_0000_0000 else 0x1_0000_0000_0000
    ensures CarriedLba(backend, StartOf(table, lbas, j)) == StartOf(table, lbas, j) <= lbas
  {
    hide CarriedLba;
    ContiguousBounds(table, 0, lbas);
    CarriedLbaExactly(backend, StartOf(table, lbas, j));
  }

  /** A command at the start of zone `j` operates on that zone. */
  lemma TargetHit(table: seq<Zone>, backend: Backend, lblock: nat, lbas: nat, j: nat, sector: nat, effect: Effect)
    requires Wide(backend, lblock, lbas) && Contiguous(table, 0, lbas) && j <= |table|
    requires Addressable(table, backend, lbas, j) && sector == StartOf(table, lbas, j) * (lblock / 512)
    ensures OpAt(table, CarriedLba(backend, SectorToLba(lblock, sector)), 1, effect) == OpRun(table, j, 1, effect)
  {
    hide SectorToLba, Contiguous, Geometry, OpRun, CarriedLba, Addressable;
    WideBound(backend, lblock, lbas);
    StartCarried(table, backend, lbas, j);
    var start, k := StartOf(table, lbas, j), lblock / 512;
    MulMonotone(start, lbas, k);
    SectorScales(lblock, lbas, sector);
    DivModUnique(sector, k, start, 0);
    IndexOfStart(table, 0, lbas, j);
    RunAtEnd(table, effect);
  }

  /** The device addresses all its sectors in 64-bit byte counts, and all its blocks in commands. */
  predicate Wide(backend: Backend, lblock: nat, lbas: nat) {
    Geometry(lblock, lbas) && (backend == Ata ==> lbas <= 0x1_0000_0000_0000)
  }

  lemma WideBound(backend: Backend, lblock: nat, lbas: nat)
    requires Wide(backend, lblock, lbas)
    ensures lbas <= if backend == Scsi then 0x1_0000_0000_0000_0000 else 0x1_0000_0000_0000
  {
    MulMonotone(1, lblock, lbas);
  }

  lemma RunAtEnd(table: seq<Zone>, effect: Effect)
    ensures OpRun(table, |table|, 1, effect) == Result(table, -EIO)
  {
  }

  /** The next command starts where the zone just processed ends. */
  lemma NextTarget(table: seq<Zone>, lblock: nat, lbas: nat, j: nat, sector: nat, length: nat)
    requires Geometry(lblock, lbas) && Contiguous(table, 0, lbas) && j < |table|
    requires sector == StartOf(table, lbas, j) * (lblock / 512) && length == table[j].length * (lblock / 512)
    ensures U64(sector + length) == sector + length == StartOf(table, lbas, j + 1) * (lblock / 512)
  {
    hide Contiguous;
    Adjacent(table, 0, lbas, j);
    ContiguousBounds(table, 0, lbas);
    var k := lblock / 512;
    MulMonotone(StartOf(table, lbas, j + 1), lbas, k);
    assert lbas * lblock == (lbas * k) * 512;
    assert table[j].start * k + table[j].length * k == (table[j].start + table[j].length) * k;
  }

  lemma RunUnfolds(table: seq<Zone>, j: nat, n: nat, effect: Effect)
    requires n > 0 && Proper(effect)
    ensures var one := OpRun(table, j, 1, effect);
            && OpRun(table, j, n, effect)
                 == (if one.error != 0 then one else OpRun(one.table, j + 1, n - 1, effect))
            && (one.error == 0 ==> j < |table|)
  {
    if j < |table| && effect(table[j]).Changed? {
      var next := table[j := Apply(effect, table[j])];
      assert OpRun(next, j + 1, 0, effect) == Result(next, 0);
    }
  }

  lemma RunEmpty(table: seq<Zone>, j: nat, effect: Effect)
    ensures OpRun(table, j, 0, effect) == Result(table, 0)
  {
  }

  /** The loop stands at zone `i + t` of the run, unless the run is complete. */
  ghost predicate Emulating(first: seq<Zone>, now: seq<Zone>, backend: Backend, lblock: nat, lbas: nat, i: nat, t: nat,
                            count: nat, length: nat, sector: nat, effect: Effect)
    requires t <= count
  {
    && i < |first| && EqualLengths(first, i, count) && length == first[i].length * (lblock / 512)
    && (i + count <= |first| || CarriedLba(backend, lbas) == lbas)
    && SamePositions(first, now) && Contiguous(now, 0, lbas)
    && (t < count ==> i + t <= |now| && sector == StartOf(now, lbas, i + t) * (lblock / 512))
    && OpRun(first, i, count, effect) == OpRun(now, i + t, count - t, effect)
  }

  lemma EmulationStarts(table: seq<Zone>, backend: Backend, lblock: nat, lbas: nat, i: nat, count: nat, effect: Effect)
    requires Geometry(lblock, lbas) && Contiguous(table, 0, lbas) && i < |table| && EqualLengths(table, i, count)
    requires i + count <= |table| || CarriedLba(backend, lbas) == lbas
    ensures var z := Import(lblock, table[i]);
            Emulating(table, table, backend, lblock, lbas, i, 0, count, z.length, z.start, effect)
  {
    ContiguousBounds(table, 0, lbas);
    LbaScales(lblock, lbas, table[i].start);
    LbaScales(lblock, lbas, table[i].length);
  }

  /** One emulated command: it operates on the next zone of the run, and the position moves to the one after. */
  lemma EmulationHits(first: seq<Zone>, now: seq<Zone>, backend: Backend, lblock: nat, lbas: nat, i: nat, t: nat,
                      count: nat, length: nat, sector: nat, effect: Effect)
    requires Wide(backend, lblock, lbas) && Proper(effect) && t < count
    requires Emulating(first, now, backend, lblock, lbas, i, t, count, length, sector, effect)
    ensures var one := OpAt(now, CarriedLba(backend, SectorToLba(lblock, sector)), 1, effect);
            && (one.error != 0 ==> OpRun(first, i, count, effect) == one)
            && (one.error == 0 && SamePositions(now, one.table) ==>
                  Emulating(first, one.table, backend, lblock, lbas, i, t + 1, count, length, U64(sector + length), effect))
  {
    hide OpRun, OpAt, Contiguous, Geometry, SectorToLba, CarriedLba, U64;
    TargetHit(now, backend, lblock, lbas, i + t, sector, effect);
    RunUnfolds(now, i + t, count - t, effect);
    var one := OpRun(now, i + t, 1, effect);
    if one.error == 0 && SamePositions(now, one.table) {
      PositionsDecide(now, one.table, 0, lbas, 0);
      if t + 1 < count {
        assert now[i + t].length == first[i + t].length == first[i].length;
        NextTarget(now, lblock, lbas, i + t, sector, length);
      }
    }
  }

  /**
   * The loop that emulates the count: one command for each zone, stepping by the length of the first, up
   * to the first error.
   */
  method EmulateCount(drive: ZonedDrive, sector: nat, count: nat, length: nat, op: ZoneOp, effects: Effects, ghost i: nat)
    returns (ret: int)
    requires drive.Valid() && AllProper(effects) && count > 0
    modifies drive`table
    ensures drive.Valid() && ret <= 0
    ensures var table := old(drive.table);
            Emulating(table, table, drive.backend, drive.lblock, drive.lbas, i, 0, count, length, sector, effects(op)) ==>
              OpRun(table, i, count, effects(op)) == Result(drive.table, ret)
    ensures var one := OpAt(old(drive.table), CarriedLba(drive.backend, SectorToLba(drive.lblock, sector)), 1, effects(op));
            one.error != 0 ==> one == Result(drive.table, ret)
  {
    hide OpRun, OpAt, Emulating, Contiguous, SectorToLba, SamePositions, Executed, CarriedOp, CarriedLba, U64,
      AllEncodable, Proper;
    ghost var first := drive.table;
    ghost var aimed := Emulating(first, first, drive.backend, drive.lblock, drive.lbas, i, 0, count, length, sector,
                                 effects(op));
    var current := sector;
    for t := 0 to count
      invariant drive.Valid() && current >= 0
      invariant aimed ==> Emulating(first, drive.table, drive.backend, drive.lblock, drive.lbas, i, t, count, length,
                                    current, effects(op))
      invariant if t == 0 then drive.table == first && current == sector
                else OpAt(first, CarriedLba(drive.backend, SectorToLba(drive.lblock, sector)), 1, effects(op)).error == 0
    {
      CommandsMean(drive.table, drive.backend, op, SectorToLba(drive.lblock, current), 0, effects);
      if aimed {
        EmulationHits(first, drive.table, drive.backend, drive.lblock, drive.lbas, i, t, count, length, current, effects(op));
      }
      ret := DriverZoneOp(drive, current, 0, op, false, effects);
      if ret != 0 {
        return ret;
      }
      current := U64(current + length);
    }
    if aimed {
      EmulationEnds(first, drive.table, drive.backend, drive.lblock, drive.lbas, i, count, length, current, effects(op));
    }
    ret := 0;
  }

  lemma EmulationEnds(first: seq<Zone>, now: seq<Zone>, backend: Backend, lblock: nat, lbas: nat, i: nat, count: nat,
                      length: nat, sector: nat, effect: Effect)
    requires Emulating(first, now, backend, lblock, lbas, i, count, count, length, sector, effect)
    ensures OpRun(first, i, count, effect) == Result(now, 0)
  {
    RunEmpty(now, i + count, effect);
  }

  /**
   * Where the emulation does what it stands for: from a zone start over zones of equal length, unless it
   * runs past a drive whose end is not a 48-bit address; or from no zone at all, which is an error.
   */
  ghost predicate Emulated(drive: ZonedDrive, sector: nat, count: nat)
    requires drive.lblock > 0
    reads drive`table
  {
    var lba := SectorToLba(drive.lblock, sector);
    var i := IndexAt(drive.table, lba);
    if i < |drive.table| then
      && sector < drive.Sectors() && EqualLengths(drive.table, i, count)
      && (i + count <= |drive.table| || CarriedLba(drive.backend, drive.lbas) == drive.lbas)
    else CarriedLba(drive.backend, lba) == lba
  }

  /** So from the start of every zone, over zones of the drive that have its length. */
  lemma EmulatedFrom(drive: ZonedDrive, j: nat, count: nat)
    requires drive.Valid() && count > 0 && j + count <= |drive.table|
    requires forall i :: j <= i < j + count ==> drive.table[i].length == drive.table[j].length
    ensures Emulated(drive, drive.table[j].start * (drive.lblock / 512), count)
  {
    hide Contiguous, SectorToLba, Geometry, IndexAt, CarriedLba;
    var table := drive.table;
    ContiguousBounds(table, 0, drive.lbas);
    IndexOfStart(table, 0, drive.lbas, j);
    BlockOfStart(drive.lblock, drive.lbas, table[j].start);
  }

  lemma BlockOfStart(lblock: nat, lbas: nat, start: nat)
    requires Geometry(lblock, lbas) && start < lbas
    ensures SectorToLba(lblock, start * (lblock / 512)) == start && start * (lblock / 512) < lbas * (lblock / 512)
  {
    hide SectorToLba;
    var k := lblock / 512;
    MulMonotone(start + 1, lbas, k);
    assert (start + 1) * k == start * k + k;
    SectorScales(lblock, lbas, start * k);
    DivModUnique(start * k, k, start, 0);
  }

  /**
   * `zbc_zone_group_op`: without support for counts, a run of zones of equal length ends in the table and
   * the error of the run in order, which is what one counted command does with a count of 16 bits; unless
   * the report of the first zone fails, which changes nothing.
   */
  method ZoneGroupOp(drive: ZonedDrive, sector: u64, count: nat, op: ZoneOp, all: bool, countSupported: bool,
                     effects: Effects)
    returns (ret: int)
    requires drive.Valid() && AllProper(effects) && PowerOfTwo(drive.lblock) && drive.lblock < 0x1_0000_0000
    modifies drive`table, drive`commands, drive`faults
    ensures drive.Valid() && ret <= 0
    ensures !all && sector * 512 % drive.lblock != 0 ==> ret == -EINVAL && drive.table == old(drive.table)
    ensures all ==> ret == 0 && drive.table == OpAll(old(drive.table), effects(op))
    ensures !all && sector * 512 % drive.lblock == 0 ==>
              var table, lba := old(drive.table), SectorToLba(drive.lblock, sector);
              if count <= 1 then
                OpAt(table, CarriedLba(drive.backend, lba), 1, effects(op)) == Result(drive.table, ret)
              else if countSupported then
                OpAt(table, CarriedLba(drive.backend, lba), WireCount(count), effects(op)) == Result(drive.table, ret)
              else old(Emulated(drive, sector, count)) ==>
                if drive.faults > old(drive.faults) then ret < 0 && drive.table == table
                else OpAt(table, lba, count, effects(op)) == Result(drive.table, ret)
  {
    hide OpRun, OpAt, OpAll, Contiguous, SectorToLba, SectorAligned, EqualLengths, Emulating, CarriedLba, CarriedOp,
      Executed, WireCount, Emulated, Proper;
    SectorAlignedExactly(sector, drive.lblock);
    if !all && !SectorAligned(sector, drive.lblock) {
      return -EINVAL;
    }
    ghost var lba := SectorToLba(drive.lblock, sector);
    CommandsMean(drive.table, drive.backend, op, lba, count, effects);
    if count <= 1 || all {
      CommandsMean(drive.table, drive.backend, op, lba, 0, effects);
      ret := DriverZoneOp(drive, sector, 0, op, all, effects);
      return;
    }
    if countSupported {
      ret := DriverZoneOp(drive, sector, count, op, false, effects);
      return;
    }
    ret := EmulatedOp(drive, sector, count, op, effects);
  }

  /** The emulation: the length of the first zone is taken from a report, and left unset if there is none. */
  method EmulatedOp(drive: ZonedDrive, sector: u64, count: nat, op: ZoneOp, effects: Effects) returns (ret: int)
    requires drive.Valid() && AllProper(effects) && drive.lblock < 0x1_0000_0000
    requires sector * 512 % drive.lblock == 0 && count > 0
    modifies drive`table, drive`commands, drive`faults
    ensures drive.Valid() && ret <= 0
    ensures var table, lba := old(drive.table), SectorToLba(drive.lblock, sector);
            old(Emulated(drive, sector, count)) ==>
              if drive.faults > old(drive.faults) then ret < 0 && drive.table == table
              else OpAt(table, lba, count, effects(op)) == Result(drive.table, ret)
  {
    hide OpRun, OpAt, Contiguous, SectorToLba, EqualLengths, Emulating, CarriedLba, Matches, Proper, AllEncodable;
    var unset: Zone := *;
    var zone := new Zone[1](_ => unset);
    var nr;
    ghost var table, lba := drive.table, SectorToLba(drive.lblock, sector);
    ghost var i := IndexAt(table, lba);
    ret, nr := drive.ReportZones(sector, 0, zone, 1);
    if ret != 0 {
      return ret;
    }
    if i < |table| && Emulated(drive, sector, count) {
      FirstMatchAtStart(drive, sector, i);
      assert zone[..nr][0] == zone[0];
      EmulationStarts(table, drive.backend, drive.lblock, drive.lbas, i, count, effects(op));
    }
    ret := EmulateCount(drive, sector, count, zone[0].length, op, effects, i);
    OpAtIndex(table, lba, count, effects(op));
    OpAtIndex(table, lba, 1, effects(op));
  }

  lemma OpAtIndex(table: seq<Zone>, lba: nat, n: nat, effect: Effect)
    ensures var i := IndexAt(table, lba);
            OpAt(table, lba, n, effect) == if i < |table| then OpRun(table, i, n, effect) else Result(table, -EIO)
  {
  }

  /** A report from the start of a zone begins with that zone. */
  lemma FirstMatchAtStart(drive: ZonedDrive, sector: nat, i: nat)
    requires drive.Valid() && sector < drive.Sectors() && sector * 512 % drive.lblock == 0
    requires i == IndexAt(drive.table, SectorToLba(drive.lblock, sector)) && i < |drive.table|
    ensures var m := Matches(drive.SectorTable(), sector, 0);
            m != [] && m[0] == Import(drive.lblock, drive.table[i])
    ensures Import(drive.lblock, drive.table[i]).start == sector
  {
    hide Contiguous, Matches, Import;
    drive.TableMatches(sector, 0);
    ContiguousBounds(drive.table, 0, drive.lbas);
    FirstFrom(drive.table, 0, drive.lbas, i);
    LbaScales(drive.lblock, drive.lbas, drive.table[i].start);
    SectorScales(drive.lblock, drive.lbas, sector);
    ImportStart(drive.lblock, drive.table[i]);
    AlignedSector(drive.lblock, sector);
  }

  lemma ImportStart(lblock: nat, z: Zone)
    ensures Import(lblock, z).start == LbaToSector(lblock, z.start)
  {
  }

  lemma AlignedSector(lblock: nat, sector: nat)
    requires lblock > 0 && lblock % 512 == 0 && sector * 512 % lblock == 0
    ensures lblock / 512 > 0 && sector / (lblock / 512) * (lblock / 512) == sector
  {
    var q, r := Quotient(sector * 512, lblock);
    var k := lblock / 512;
    assert sector * 512 == (q * k) * 512;
    DivModUnique(sector, k, q, 0);
  }

  lemma {:induction false} FirstFrom(table: seq<Zone>, start: nat, end: nat, i: nat)
    requires Contiguous(table, start, end) && i < |table|
    ensures var m := Matches(table, table[i].start, 0);
            m != [] && m[0] == table[i]
  {
    ContiguousBounds(table, start, end);
    if i > 0 {
      FirstFrom(table[1..], table[0].End(), end, i - 1);
    }
  }
}
