/** ZONE ACTIVATE and ZONE QUERY: the 16-byte and the 32-byte command blocks of the SCSI driver. */
module Activation {
  import opened Bits
  import opened Errors
  import opened ByteCodec
  import opened ZoneWire

  /** What a command asks for; the number of zones counts only with `zsrc`. */
  datatype Activate = Activate(query: bool, all: bool, zsrc: bool, domain: nat, lba: nat, nrZones: nat, allocation: nat)

  datatype ParsedActivate = Malformed | Command(request: Activate)

  function Parse16(cdb: seq<byte>): ParsedActivate
    requires |cdb| >= 16
  {
    if cdb[0] == 0x95 && (cdb[1] == 0x08 || cdb[1] == 0x09) then
      var zsrc := cdb[2] / 0x40 % 2 == 1;
      Command(Activate(cdb[1] == 0x09, cdb[2] >= 0x80, zsrc, cdb[2] % 0x40, FromBigEndian(cdb[3..9]),
                       if zsrc then FromBigEndian(cdb[13..15]) else 0, FromBigEndian(cdb[9..13])))
    else Malformed
  }

  function Parse32(cdb: seq<byte>): ParsedActivate
    requires |cdb| >= 32
  {
    if cdb[0] == 0x7F && cdb[7] == 0x18 && cdb[8] == 0xF8 && (cdb[9] == 0x00 || cdb[9] == 0x01) then
      var zsrc := cdb[10] / 0x40 % 2 == 1;
      Command(Activate(cdb[9] == 0x01, cdb[10] >= 0x80, zsrc, cdb[11], FromBigEndian(cdb[12..20]),
                       if zsrc then FromBigEndian(cdb[20..24]) else 0, FromBigEndian(cdb[28..32])))
    else Malformed
  }

  /** What the short form carries of a request. */
  function Carried16(a: Activate): Activate {
    a.(domain := a.domain % 0x40, lba := a.lba % Pow256(6),
       nrZones := if a.zsrc then a.nrZones % Pow256(2) else 0, allocation := a.allocation % Pow256(4))
  }

  /** What the long form carries of a request. */
  function Carried32(a: Activate): Activate {
    a.(domain := a.domain % 0x100, lba := a.lba % Pow256(8),
       nrZones := if a.zsrc then a.nrZones % Pow256(4) else 0, allocation := a.allocation % Pow256(4))
  }

  /** The flags, joined to the domain of the short form. */
  method FlagByte(all: bool, zsrc: bool, domain: nat) returns (b: byte)
    requires domain < 0x40
    ensures b == domain + (if all then 0x80 else 0) + (if zsrc then 0x40 else 0)
  {
    hide Or;
    assert PowerOfTwo(0x40) && PowerOfTwo(0x80);
    b := domain;
    if all {
      OrDisjoint(1, domain, 0x80);
      b := Or(b, 0x80);
    }
    if zsrc {
      JoinBitSix(b, domain, if all then 2 else 0);
      b := Or(b, 0x40);
    }
  }

  lemma JoinBitSix(b: nat, low: nat, high: nat)
    requires low < 0x40 && (high == 0 || high == 2) && b == high * 0x40 + low
    ensures Or(b, 0x40) == b + 0x40
  {
    assert PowerOfTwo(0x40);
    OrSplit(b, high, low, 0x40, 1, 0, 0x40);
    assert Or(2, 1) == 3;
  }

  /** The short form, or its refusal of a start beyond 48 bits or of too many result records. */
  method BuildShort(a: Activate, records: nat) returns (ret: int, cdb: array<byte>)
    ensures fresh(cdb) && cdb.Length == 32
    ensures ret == if records > 0xFFFF || a.lba > 0xFFFF_FFFF_FFFF then -EINVAL else 0
    ensures ret == 0 ==>
              && cdb[0] == 0x95 && cdb[1] == (if a.query then 0x09 else 0x08)
              && cdb[2] == a.domain % 0x40 + (if a.all then 0x80 else 0) + (if a.zsrc then 0x40 else 0)
              && cdb[3..9] == ToBigEndian(a.lba, 6) && cdb[9..13] == ToBigEndian(a.allocation, 4)
              && (a.zsrc ==> cdb[13..15] == ToBigEndian(a.nrZones, 2))
              && Clear(cdb[..], if a.zsrc then 15 else 13, 32)
    ensures ret == 0 ==> Parse16(cdb[..]) == Command(Carried16(a))
  {
    hide And, FromBigEndian, ToBigEndian, Pow256, Parse16, Carried16, Overwrite, Clear;
    if records > 0xFFFF || a.lba > 0xFFFF_FFFF_FFFF {
      cdb := new byte[32](_ => 0);
      return -EINVAL, cdb;
    }
    ret := 0;
    cdb := ShortHead(a);
    ghost var base := cdb[..];
    if a.zsrc {
      SetBytes(cdb, 13, a.nrZones, 2);
    }
    SetBytes(cdb, 3, a.lba, 6);
    SetBytes(cdb, 9, a.allocation, 4);
    ShortBytes(base, a);
    ShortParses(cdb[..], a);
  }

  /** The first three bytes of the short form, in a block that is otherwise clear. */
  method ShortHead(a: Activate) returns (cdb: array<byte>)
    ensures fresh(cdb) && cdb.Length == 32 && ShortHeader(cdb[..], a)
  {
    hide And;
    assert PowerOfTwo(0x40);
    AndMask(a.domain, 0x40);
    cdb := new byte[32](_ => 0);
    var flags := FlagByte(a.all, a.zsrc, And(a.domain, 0x3F));
    cdb[0], cdb[1], cdb[2] := 0x95, if a.query then 0x09 else 0x08, flags;
  }

  predicate ShortHeader(base: seq<byte>, a: Activate) {
    && |base| == 32 && base[0] == 0x95 && base[1] == (if a.query then 0x09 else 0x08)
    && base[2] == a.domain % 0x40 + (if a.all then 0x80 else 0) + (if a.zsrc then 0x40 else 0)
    && Clear(base, 3, 32)
  }

  /** The bytes of the short form, after the stores into a block that is otherwise clear. */
  lemma ShortBytes(base: seq<byte>, a: Activate)
    requires ShortHeader(base, a)
    ensures var s1 := if a.zsrc then Overwrite(base, 13, ToBigEndian(a.nrZones, 2)) else base;
            var cdb := Overwrite(Overwrite(s1, 3, ToBigEndian(a.lba, 6)), 9, ToBigEndian(a.allocation, 4));
            && cdb[0] == 0x95 && cdb[1] == (if a.query then 0x09 else 0x08)
            && cdb[2] == a.domain % 0x40 + (if a.all then 0x80 else 0) + (if a.zsrc then 0x40 else 0)
            && cdb[3..9] == ToBigEndian(a.lba, 6) && cdb[9..13] == ToBigEndian(a.allocation, 4)
            && (a.zsrc ==> cdb[13..15] == ToBigEndian(a.nrZones, 2)) && Clear(cdb, if a.zsrc then 15 else 13, 32)
  {
    hide ToBigEndian;
    var b2, b6, b4 := ToBigEndian(a.nrZones, 2), ToBigEndian(a.lba, 6), ToBigEndian(a.allocation, 4);
    var s1 := if a.zsrc then Overwrite(base, 13, b2) else base;
    var s2 := Overwrite(s1, 3, b6);
    OverwriteAt(s1, 3, b6);
    OverwriteAt(s2, 9, b4);
    OverwriteKeeps(s2, 9, b4, 3, 9);
    var low := if a.zsrc then 15 else 13;
    OverwriteClear(s1, 3, b6, low, 32);
    OverwriteClear(s2, 9, b4, low, 32);
    if a.zsrc {
      OverwriteAt(base, 13, b2);
      OverwriteKeeps(s1, 3, b6, 13, 15);
      OverwriteKeeps(s2, 9, b4, 13, 15);
    }
  }

  lemma ShortParses(cdb: seq<byte>, a: Activate)
    requires |cdb| == 32 && cdb[3..9] == ToBigEndian(a.lba, 6)
    requires cdb[9..13] == ToBigEndian(a.allocation, 4) && (a.zsrc ==> cdb[13..15] == ToBigEndian(a.nrZones, 2))
    requires cdb[0] == 0x95 && cdb[1] == (if a.query then 0x09 else 0x08)
    requires cdb[2] == a.domain % 0x40 + (if a.all then 0x80 else 0) + (if a.zsrc then 0x40 else 0)
    ensures Parse16(cdb) == Command(Carried16(a))
  {
    hide FromBigEndian, ToBigEndian, Pow256;
    BigEndianRoundTrip(a.lba, 6);
    BigEndianRoundTrip(a.allocation, 4);
    BigEndianRoundTrip(a.nrZones, 2);
  }

  /** The long form. */
  method BuildLong(a: Activate) returns (cdb: array<byte>)
    ensures fresh(cdb) && cdb.Length == 32
    ensures cdb[0] == 0x7F && cdb[7] == 0x18 && cdb[8] == 0xF8 && cdb[9] == (if a.query then 0x01 else 0x00)
    ensures cdb[10] == (if a.all then 0x80 else 0) + (if a.zsrc then 0x40 else 0) && cdb[11] == a.domain % 0x100
    ensures cdb[12..20] == ToBigEndian(a.lba, 8) && cdb[28..32] == ToBigEndian(a.allocation, 4)
    ensures a.zsrc ==> cdb[20..24] == ToBigEndian(a.nrZones, 4)
    ensures Clear(cdb[..], 1, 7) && Clear(cdb[..], if a.zsrc then 24 else 20, 28)
    ensures Parse32(cdb[..]) == Command(Carried32(a))
  {
    hide FromBigEndian, ToBigEndian, Pow256, Parse32, Carried32, Overwrite, Clear;
    cdb := LongHead(a);
    ghost var base := cdb[..];
    if a.zsrc {
      SetBytes(cdb, 20, a.nrZones, 4);
    }
    SetBytes(cdb, 12, a.lba, 8);
    SetBytes(cdb, 28, a.allocation, 4);
    LongBytes(base, a);
    LongParses(cdb[..], a);
  }

  /** The first twelve bytes of the long form, in a block that is otherwise clear. */
  method LongHead(a: Activate) returns (cdb: array<byte>)
    ensures fresh(cdb) && cdb.Length == 32 && LongHeader(cdb[..], a)
  {
    hide ToBigEndian, Overwrite;
    cdb := new byte[32](_ => 0);
    cdb[0], cdb[7] := 0x7F, 0x18;
    ghost var first := cdb[..];
    SetBytes(cdb, 8, if a.query then 0xF801 else 0xF800, 2);
    ServiceStored(first, a.query);
    ghost var stored := cdb[..];
    var flags := FlagByte(a.all, a.zsrc, 0);
    cdb[10] := flags;
    cdb[11] := a.domain % 0x100;
    assert forall k :: 0 <= k < 32 && k != 10 && k != 11 ==> cdb[k] == stored[k];
  }

  predicate LongHeader(base: seq<byte>, a: Activate) {
    && |base| == 32 && base[0] == 0x7F && base[7] == 0x18 && base[8] == 0xF8
    && base[9] == (if a.query then 0x01 else 0x00)
    && base[10] == (if a.all then 0x80 else 0) + (if a.zsrc then 0x40 else 0) && base[11] == a.domain % 0x100
    && Clear(base, 1, 7) && Clear(base, 12, 32)
  }

  lemma ServiceStored(first: seq<byte>, query: bool)
    requires |first| == 32 && Clear(first, 1, 7) && Clear(first, 8, 32)
    ensures var s := Overwrite(first, 8, ToBigEndian(if query then 0xF801 else 0xF800, 2));
            && s[0] == first[0] && s[7] == first[7] && s[8] == 0xF8 && s[9] == (if query then 0x01 else 0x00)
            && Clear(s, 1, 7) && Clear(s, 10, 32)
  {
    hide ToBigEndian;
    ServiceAction(query);
  }

  /** The bytes of the long form, after the stores into a block that is otherwise clear. */
  lemma LongBytes(base: seq<byte>, a: Activate)
    requires LongHeader(base, a)
    ensures var s1 := if a.zsrc then Overwrite(base, 20, ToBigEndian(a.nrZones, 4)) else base;
            var cdb := Overwrite(Overwrite(s1, 12, ToBigEndian(a.lba, 8)), 28, ToBigEndian(a.allocation, 4));
            && cdb[0] == 0x7F && cdb[7] == 0x18 && cdb[8] == 0xF8 && cdb[9] == (if a.query then 0x01 else 0x00)
            && cdb[10] == (if a.all then 0x80 else 0) + (if a.zsrc then 0x40 else 0) && cdb[11] == a.domain % 0x100
            && cdb[12..20] == ToBigEndian(a.lba, 8) && cdb[28..32] == ToBigEndian(a.allocation, 4)
            && (a.zsrc ==> cdb[20..24] == ToBigEndian(a.nrZones, 4))
            && Clear(cdb, 1, 7) && Clear(cdb, if a.zsrc then 24 else 20, 28)
  {
    hide ToBigEndian;
    var b4, b8, c4 := ToBigEndian(a.nrZones, 4), ToBigEndian(a.lba, 8), ToBigEndian(a.allocation, 4);
    var s1 := if a.zsrc then Overwrite(base, 20, b4) else base;
    var s2 := Overwrite(s1, 12, b8);
    OverwriteAt(s1, 12, b8);
    OverwriteAt(s2, 28, c4);
    OverwriteKeeps(s2, 28, c4, 12, 20);
    var low := if a.zsrc then 24 else 20;
    assert Clear(base, low, 28);
    OverwriteClear(s1, 12, b8, low, 28);
    OverwriteClear(s2, 28, c4, low, 28);
    if a.zsrc {
      OverwriteAt(base, 20, b4);
      OverwriteKeeps(s1, 12, b8, 20, 24);
      OverwriteKeeps(s2, 28, c4, 20, 24);
    }
  }

  lemma LongParses(cdb: seq<byte>, a: Activate)
    requires |cdb| == 32 && cdb[12..20] == ToBigEndian(a.lba, 8)
    requires cdb[28..32] == ToBigEndian(a.allocation, 4) && (a.zsrc ==> cdb[20..24] == ToBigEndian(a.nrZones, 4))
    requires cdb[0] == 0x7F && cdb[7] == 0x18 && cdb[8] == 0xF8 && cdb[9] == (if a.query then 0x01 else 0x00)
    requires cdb[10] == (if a.all then 0x80 else 0) + (if a.zsrc then 0x40 else 0) && cdb[11] == a.domain % 0x100
    ensures Parse32(cdb) == Command(Carried32(a))
  {
    hide FromBigEndian, ToBigEndian, Pow256;
    BigEndianRoundTrip(a.lba, 8);
    BigEndianRoundTrip(a.allocation, 4);
    BigEndianRoundTrip(a.nrZones, 4);
  }

  lemma ServiceAction(query: bool)
    ensures ToBigEndian(if query then 0xF801 else 0xF800, 2) == [0xF8, if query then 0x01 else 0x00]
  {
    assert ToBigEndian(0xF8, 1) == [] + [0xF8];
    var v: nat := if query then 0xF801 else 0xF800;
    assert ToBigEndian(v, 2) == ToBigEndian(0xF8, 1) + [v % 256];
  }

  /**
   * For a request that the short form accepts, both forms carry the same request exactly if the domain
   * fits 6 of its 8 bits and the zone count, where it is sent, 16 of its 32.
   */
  lemma FormsAgreeExactly(a: Activate)
    requires a.lba <= 0xFFFF_FFFF_FFFF && a.nrZones < 0x1_0000_0000
    ensures Carried16(a) == Carried32(a) <==> (a.domain % 0x100 < 0x40 && (a.zsrc ==> a.nrZones < 0x1_0000))
  {
    Powers256();
  }

  // ---------------------------------------------------------------------------------------------
  // Replies, which both forms process alike
  // ---------------------------------------------------------------------------------------------

  /** A run of zones with a common type and condition; the start is in the unit of its context. */
  datatype Record = Record(start: nat, nrZones: nat, domain: nat, ztype: nat, condition: nat)
  {
    predicate Encodable() {
      && start < 0x1_0000_0000_0000_0000 && nrZones < 0x1_0000_0000_0000_0000
      && domain < 0x100 && ztype < 0x10 && condition < 0x10
    }
  }

  /** What the drive reports: success, a zone with unmet prerequisites, a status byte, and records. */
  datatype Report = Report(activated: bool, unmet: bool, unmetLba: nat, status: nat, total: nat, records: seq<Record>)
  {
    predicate Encodable() {
      && unmetLba < 0x1_0000_0000_0000 && status < 0x100 && total < 0x1_0000_0000 && 24 * |records| < 0x1_0000_0000
      && forall i :: 0 <= i < |records| ==> records[i].Encodable()
    }
  }

  function PrintRecord(r: Record, filler: seq<byte>): (bytes: seq<byte>)
    requires r.Encodable() && |filler| == 24
    ensures |bytes| == 24
  {
    [filler[0] / 16 * 16 + r.ztype, r.condition * 16 + filler[1] % 16, r.domain] + filler[3..8]
      + ToBigEndian(r.nrZones, 8) + ToBigEndian(r.start, 8)
  }

  function PrintRecords(records: seq<Record>, filler: seq<byte>): (bytes: seq<byte>)
    requires (forall i :: 0 <= i < |records| ==> records[i].Encodable()) && |filler| == 24 * |records|
    ensures |bytes| == 24 * |records|
  {
    if records == [] then []
    else PrintRecord(records[0], filler[..24]) + PrintRecords(records[1..], filler[24..])
  }

  function PrintFlags(r: Report, filler: byte): (b: byte) {
    filler / 0x80 * 0x80 + (if r.unmet then 0x40 else 0) + filler % 0x40 / 2 * 2 + (if r.activated then 1 else 0)
  }

  /** The parameter data: total and returned lengths, flags and status, the unmet zone, the records. */
  function PrintReply(r: Report, filler: seq<byte>): (bytes: seq<byte>)
    requires r.Encodable() && |filler| == 64 + 24 * |r.records|
    ensures |bytes| == 64 + 24 * |r.records|
  {
    ToBigEndian(r.total, 4) + ToBigEndian(24 * |r.records|, 4) + [PrintFlags(r, filler[8]), r.status] + filler[10..24]
      + ToBigEndian(r.unmetLba, 6) + filler[30..64] + PrintRecords(r.records, filler[64..])
  }

  function DecodeRecord(lblock: nat, buf: seq<byte>): Record
    requires |buf| == 24
  {
    Record(LbaToSector(lblock, FromBigEndian(buf[16..24])), FromBigEndian(buf[8..16]), buf[2],
           And(buf[0], 0x0F), And(buf[1] / 16, 0x0F))
  }

  /** Where the fields of a record are. */
  lemma RecordLayout(lblock: nat, buf: seq<byte>)
    requires |buf| == 24
    ensures var r := DecodeRecord(lblock, buf);
            && r.ztype == buf[0] % 16 && r.condition == buf[1] / 16 && r.domain == buf[2]
            && r.nrZones == FromBigEndian(buf[8..16]) && r.start == LbaToSector(lblock, FromBigEndian(buf[16..24]))
  {
    hide And, FromBigEndian, LbaToSector;
    FlagFields(buf[0], buf[1]);
  }

  lemma RecordRoundTrip(lblock: nat, r: Record, filler: seq<byte>)
    requires r.Encodable() && |filler| == 24
    ensures DecodeRecord(lblock, PrintRecord(r, filler)) == r.(start := LbaToSector(lblock, r.start))
  {
    hide And, FromBigEndian, ToBigEndian, LbaToSector;
    var buf := PrintRecord(r, filler);
    assert buf[8..16] == ToBigEndian(r.nrZones, 8) && buf[16..24] == ToBigEndian(r.start, 8);
    Powers256();
    BigEndianRoundTrip(r.nrZones, 8);
    BigEndianRoundTrip(r.start, 8);
    FlagFields(buf[0], buf[1]);
  }

  lemma {:induction false} PrintedRecordAt(records: seq<Record>, filler: seq<byte>, i: nat)
    requires (forall j :: 0 <= j < |records| ==> records[j].Encodable()) && |filler| == 24 * |records| && i < |records|
    ensures PrintRecords(records, filler)[24 * i..24 * i + 24] == PrintRecord(records[i], filler[24 * i..24 * i + 24])
  {
    hide PrintRecord;
    var first, others := PrintRecord(records[0], filler[..24]), PrintRecords(records[1..], filler[24..]);
    if i == 0 {
      assert (first + others)[0..24] == first;
    } else {
      PrintedRecordAt(records[1..], filler[24..], i - 1);
      SliceAfter(first, others, 24 * i, 24 * i + 24);
      SliceAfter(filler[..24], filler[24..], 24 * i, 24 * i + 24);
      assert filler[..24] + filler[24..] == filler;
    }
  }

  /** The extended error status: the status byte with the two flags in bits 15 and 14. */
  function ErrorStatus(flags: byte, status: byte): nat {
    var activated := if And(flags, 0x01) != 0 then Or(status, 0x8000) else status;
    if And(flags, 0x40) != 0 then Or(activated, 0x4000) else activated
  }

  lemma StatusBits(flags: byte, status: byte)
    ensures And(flags, 0x01) != 0 <==> flags % 2 == 1
    ensures And(flags, 0x40) != 0 <==> flags / 0x40 % 2 == 1
    ensures ErrorStatus(flags, status)
         == status + (if flags % 2 == 1 then 0x8000 else 0) + (if flags / 0x40 % 2 == 1 then 0x4000 else 0)
  {
    hide And, Or;
    PowersOfTwo();
    AndMask(flags, 2);
    AndSplit(flags, flags / 0x40, flags % 0x40, 0x40, 1, 0, 0x40);
    AndMask(flags / 0x40, 2);
    assert And(flags % 0x40, 0) == 0 by { AndZero(flags % 0x40); }
    OrDisjoint(1, status, 0x8000);
    OrDisjoint(1, status, 0x4000);
    OrSplit(status + 0x8000, 2, status, 0x4000, 1, 0, 0x4000);
    OrZero(status);
  }

  lemma PowersOfTwo()
    ensures PowerOfTwo(2) && PowerOfTwo(0x40) && PowerOfTwo(0x4000) && PowerOfTwo(0x8000)
  {
    assert PowerOfTwo(0x80) && PowerOfTwo(0x100);
    PowerOfTwoProduct(0x80, 0x80);
    PowerOfTwoProduct(0x80, 0x100);
  }

  lemma AndZero(x: nat)
    ensures And(x, 0) == 0
  {
  }

  lemma OrZero(x: nat)
    ensures Or(x, 0) == x && Or(2, 1) == 3
  {
  }

  /**
   * The outcome of a command: its error, the extended status and failing sector, the number of records
   * that the caller is told, and the records stored.
   */
  datatype Completion = Completion(ret: int, status: nat, failedSector: nat, nr: nat, records: seq<Record>)

  /**
   * What a reply means: the error status is taken from the flags, and as many records as were returned,
   * wanted and received are stored even after an error. Without an array for records the total of the
   * drive is counted instead.
   */
  predicate Processed(reply: seq<byte>, lblock: nat, query: bool, wanted: Wanted, a: Completion) {
    if |reply| < 64 then a == Completion(-EIO, 0, 0, 0, [])
    else
      var status := ErrorStatus(reply[8], reply[9]);
      var failed := (status < 0x8000 && !query) || status / 0x4000 % 2 == 1;
      && a.ret == (if failed then -EIO else 0)
      && a.status == (if failed then status else 0)
      && a.failedSector == (if status / 0x4000 % 2 == 1 then LbaToSector(lblock, FromBigEndian(reply[24..30])) else 0)
      && (match wanted
          case CountOnly(_) => a.nr == FromBigEndian(reply[..4]) / 24 && a.records == []
          case Room(n) => a.nr == |a.records| == Min(Min(FromBigEndian(reply[4..8]) / 24, n), (|reply| - 64) / 24))
      && forall i :: 0 <= i < |a.records| ==> a.records[i] == DecodeRecord(lblock, reply[64 + 24 * i..88 + 24 * i])
  }

  /** The number of records that the caller asks for, and whether it gives an array for them. */
  datatype Wanted = CountOnly(n: nat) | Room(n: nat)

  /** The processing of a reply. */
  method ProcessReply(reply: seq<byte>, lblock: nat, query: bool, wanted: Wanted) returns (a: Completion)
    ensures Processed(reply, lblock, query, wanted, a)
  {
    hide FromBigEndian, DecodeRecord, LbaToSector, And, Or;
    if |reply| < 64 {
      return Completion(-EIO, 0, 0, 0, []);
    }
    StatusBits(reply[8], reply[9]);
    var status := ErrorStatus(reply[8], reply[9]);
    a := Completion(0, 0, 0, 0, []);
    if (status < 0x8000 && !query) || status / 0x4000 % 2 == 1 {
      a := a.(ret := -EIO, status := status);
      if status / 0x4000 % 2 == 1 {
        assert reply[24..30][..6] == reply[24..30];
        var lba := GetBytes(reply[24..30], 6);
        a := a.(failedSector := LbaToSector(lblock, lba));
      }
    }
    if wanted.CountOnly? {
      assert reply[..4][..4] == reply[..4];
      var total := GetBytes(reply[..4], 4);
      a := a.(nr := total / 24);
      return;
    }
    assert reply[4..8][..4] == reply[4..8];
    var length := GetBytes(reply[4..8], 4);
    var nr := Min(Min(length / 24, wanted.n), (|reply| - 64) / 24);
    var pos, records := 64, [];
    for i := 0 to nr
      invariant pos == 64 + 24 * i && |records| == i
      invariant forall k :: 0 <= k < i ==> records[k] == DecodeRecord(lblock, reply[64 + 24 * k..88 + 24 * k])
    {
      records := records + [DecodeRecord(lblock, reply[pos..pos + 24])];
      pos := pos + 24;
    }
    a := a.(nr := nr, records := records);
  }

  /** A reply means one thing. */
  lemma ProcessedOnce(reply: seq<byte>, lblock: nat, query: bool, wanted: Wanted, a: Completion, b: Completion)
    requires Processed(reply, lblock, query, wanted, a) && Processed(reply, lblock, query, wanted, b)
    ensures a == b
  {
    hide ErrorStatus, FromBigEndian, DecodeRecord, LbaToSector;
    if |reply| >= 64 {
      assert |a.records| == |b.records|;
      assert a.records == b.records;
    }
  }

  /** A drive fails a command, or answers what it reads from it. */
  datatype Answer = Failed(error: int) | Reply(bytes: seq<byte>)

  type Drive = Activate -> Answer

  /** What the caller gets from an answer. */
  predicate Answered(answer: Answer, lblock: nat, query: bool, wanted: Wanted, a: Completion) {
    match answer
    case Failed(error) => a == Completion(error, 0, 0, 0, [])
    case Reply(bytes) => Processed(bytes, lblock, query, wanted, a)
  }

  /** The zone source is not sent with a request for all zones. */
  function Sent(a: Activate): Activate {
    if a.all then a.(zsrc := false) else a
  }

  /** Queries or activates zones through either form of the command. */
  method QueryActivate(drive: Drive, a: Activate, long: bool, lblock: nat, wanted: Wanted) returns (r: Completion)
    ensures !long && (wanted.n > 0xFFFF || a.lba > 0xFFFF_FFFF_FFFF) ==> r == Completion(-EINVAL, 0, 0, wanted.n, [])
    ensures !(!long && (wanted.n > 0xFFFF || a.lba > 0xFFFF_FFFF_FFFF)) ==>
              var sent := if a.all then a.(zsrc := false) else a;
              Answered(drive(if long then Carried32(sent) else Carried16(sent)), lblock, a.query, wanted, r)
  {
    hide Processed, Carried16, Carried32, Parse16, Parse32;
    var sent, cdb, request := Sent(a), new byte[0], a;
    if long {
      cdb := BuildLong(sent);
      request := Parse32(cdb[..]).request;
    } else {
      var ret;
      ret, cdb := BuildShort(sent, wanted.n);
      if ret != 0 {
        return Completion(ret, 0, 0, wanted.n, []);
      }
      request := Parse16(cdb[..]).request;
    }
    match drive(request) {
      case Failed(error) => r := Completion(error, 0, 0, 0, []);
      case Reply(bytes) => r := ProcessReply(bytes, lblock, a.query, wanted);
    }
  }

  /** Where both forms carry the same request, no caller can tell them apart, whatever the drive. */
  lemma FormsSameOutcome(drive: Drive, a: Activate, lblock: nat, wanted: Wanted, short: Completion, long: Completion)
    requires a.lba <= 0xFFFF_FFFF_FFFF && a.domain < 0x40 && a.nrZones < 0x1_0000
    requires Answered(drive(Carried16(Sent(a))), lblock, a.query, wanted, short)
    requires Answered(drive(Carried32(Sent(a))), lblock, a.query, wanted, long)
    ensures short == long
  {
    hide Processed, Carried16, Carried32;
    FormsAgreeExactly(Sent(a));
    match drive(Carried16(Sent(a)))
    case Failed(_) =>
    case Reply(bytes) => ProcessedOnce(bytes, lblock, a.query, wanted, short, long);
  }

  /** A report survives the wire: its records in sectors, its status, and the sector of the unmet zone. */
  method ReportRoundTrip(r: Report, filler: seq<byte>, lblock: nat, query: bool, wanted: Wanted) returns (a: Completion)
    requires r.Encodable() && |filler| == 64 + 24 * |r.records|
    ensures a.ret == (if (!r.activated && !query) || r.unmet then -EIO else 0)
    ensures a.ret != 0 ==> a.status == r.status + (if r.activated then 0x8000 else 0) + (if r.unmet then 0x4000 else 0)
    ensures a.failedSector == (if r.unmet then LbaToSector(lblock, r.unmetLba) else 0)
    ensures match wanted
            case CountOnly(_) => a.nr == r.total / 24 && a.records == []
            case Room(n) => a.nr == |a.records| == Min(|r.records|, n)
    ensures forall i :: 0 <= i < |a.records| ==>
              a.records[i] == r.records[i].(start := LbaToSector(lblock, r.records[i].start))
  {
    hide FromBigEndian, ToBigEndian, DecodeRecord, PrintRecord, LbaToSector, And, Or, PrintRecords, ErrorStatus,
      PrintReply, PrintFlags;
    var reply := PrintReply(r, filler);
    a := ProcessReply(reply, lblock, query, wanted);
    StatusBits(reply[8], reply[9]);
    FlagsPrinted(r, filler[8]);
    HeaderPrinted(r, filler);
    forall i | 0 <= i < |a.records|
      ensures a.records[i] == r.records[i].(start := LbaToSector(lblock, r.records[i].start))
    {
      RecordPrinted(r, filler, i);
      RecordRoundTrip(lblock, r.records[i], filler[64..][24 * i..24 * i + 24]);
    }
  }

  lemma HeaderPrinted(r: Report, filler: seq<byte>)
    requires r.Encodable() && |filler| == 64 + 24 * |r.records|
    ensures var reply := PrintReply(r, filler);
            && reply[8] == PrintFlags(r, filler[8]) && reply[9] == r.status
            && FromBigEndian(reply[..4]) == r.total && FromBigEndian(reply[4..8]) == 24 * |r.records|
            && FromBigEndian(reply[24..30]) == r.unmetLba
  {
    hide FromBigEndian, ToBigEndian, PrintRecords, PrintFlags;
    var reply := PrintReply(r, filler);
    assert reply[..4] == ToBigEndian(r.total, 4);
    assert reply[4..8] == ToBigEndian(24 * |r.records|, 4) && reply[24..30] == ToBigEndian(r.unmetLba, 6);
    Powers256();
    BigEndianRoundTrip(r.total, 4);
    BigEndianRoundTrip(24 * |r.records|, 4);
    BigEndianRoundTrip(r.unmetLba, 6);
  }

  lemma FlagsPrinted(r: Report, filler: byte)
    ensures PrintFlags(r, filler) % 2 == (if r.activated then 1 else 0)
    ensures PrintFlags(r, filler) / 0x40 % 2 == (if r.unmet then 1 else 0)
  {
    var high, low := filler / 0x80, filler % 0x40 / 2;
    var u, a := if r.unmet then 1 else 0, if r.activated then 1 else 0;
    assert low < 0x20;
    FlagBits(high, u, low, a);
  }

  lemma FlagBits(high: nat, u: nat, low: nat, a: nat)
    requires u < 2 && low < 0x20 && a < 2
    ensures (high * 0x80 + u * 0x40 + low * 2 + a) % 2 == a
    ensures (high * 0x80 + u * 0x40 + low * 2 + a) / 0x40 % 2 == u
  {
  }

  lemma RecordPrinted(r: Report, filler: seq<byte>, i: nat)
    requires r.Encodable() && |filler| == 64 + 24 * |r.records| && i < |r.records|
    ensures PrintReply(r, filler)[64 + 24 * i..88 + 24 * i] == PrintRecord(r.records[i], filler[64..][24 * i..24 * i + 24])
  {
    hide ToBigEndian, PrintRecord;
    var body := PrintRecords(r.records, filler[64..]);
    assert PrintReply(r, filler)[64..] == body;
    assert PrintReply(r, filler)[64 + 24 * i..88 + 24 * i] == body[24 * i..24 * i + 24];
    PrintedRecordAt(r.records, filler[64..], i);
  }
}
