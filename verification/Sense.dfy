/** Sense data: the extended error that `zbc_sg_set_sense` records from a failed command. */
module Sense {
  import opened Bits
  import opened ByteCodec

  // ---------------------------------------------------------------------------------------------
  // Descriptors (section 4.5.2 of SPC-4)
  // ---------------------------------------------------------------------------------------------

  /** A sense data descriptor: its type, and the bytes counted by its additional length. */
  datatype Descriptor = Descriptor(kind: byte, body: seq<byte>)

  /** The additional lengths fit a byte. */
  predicate Printable(ds: seq<Descriptor>) {
    forall i :: 0 <= i < |ds| ==> |ds[i].body| < 256
  }

  function Print(ds: seq<Descriptor>): seq<byte>
    requires Printable(ds)
  {
    if ds == [] then [] else [ds[0].kind, |ds[0].body|] + ds[0].body + Print(ds[1..])
  }

  /** The bytes are cut into descriptors exactly at their end. */
  predicate Whole(s: seq<byte>) {
    s == [] || (|s| >= 2 && 2 + s[1] <= |s| && Whole(s[2 + s[1]..]))
  }

  function Parse(s: seq<byte>): seq<Descriptor>
    requires Whole(s)
  {
    if s == [] then [] else [Descriptor(s[0], s[2..2 + s[1]])] + Parse(s[2 + s[1]..])
  }

  lemma {:induction false} PrintIsWhole(ds: seq<Descriptor>)
    requires Printable(ds)
    ensures Whole(Print(ds)) && Parse(Print(ds)) == ds
  {
    if ds != [] {
      PrintIsWhole(ds[1..]);
      var s, n := Print(ds), |ds[0].body|;
      assert s[2 + n..] == Print(ds[1..]) && s[2..2 + n] == ds[0].body;
    }
  }

  // ---------------------------------------------------------------------------------------------
  // The walk
  // ---------------------------------------------------------------------------------------------

  /** The two values recorded from descriptors. */
  datatype Recorded = Recorded(info: nat, csinfo: nat)

  /** What one turn of the loop records when `s` starts at a descriptor. */
  function RecordOne(s: seq<byte>, r: Recorded): Recorded {
    if |s| >= 12 && s[0] == 0 && s[2] >= 0x80 then r.(info := FromBigEndian(s[4..12]))
    else if |s| >= 12 && s[0] == 1 then r.(csinfo := FromBigEndian(s[4..12]))
    else r
  }

  function Walk(s: seq<byte>, r: Recorded): Recorded
    requires Whole(s)
  {
    if s == [] then r else Walk(s[2 + s[1]..], RecordOne(s, r))
  }

  /** What a descriptor means, from its own bytes: nothing if it is too short to hold the value. */
  function Own(d: Descriptor, r: Recorded): Recorded {
    if |d.body| < 10 then r
    else if d.kind == 0 && d.body[0] >= 0x80 then r.(info := FromBigEndian(d.body[2..10]))
    else if d.kind == 1 then r.(csinfo := FromBigEndian(d.body[2..10]))
    else r
  }

  /** The meaning of descriptors: the last valid information, and the last command-specific value. */
  function Meaning(ds: seq<Descriptor>, r: Recorded): Recorded {
    if ds == [] then r else Own(ds[|ds| - 1], Meaning(ds[..|ds| - 1], r))
  }

  /**
   * A short descriptor with 12 bytes left, whose type, and for information the bit taken for the
   * valid bit, pass the guards: the value is then read from what follows the descriptor.
   */
  predicate Foreign(s: seq<byte>) {
    |s| >= 12 && s[1] < 10 && ((s[0] == 0 && s[2] >= 0x80) || s[0] == 1)
  }

  predicate NoneForeign(ds: seq<Descriptor>)
    requires Printable(ds)
  {
    forall k :: 0 <= k < |ds| ==> !Foreign(Print(ds[k..]))
  }

  /** Exactly when a turn records what its descriptor means, for descriptors of every length. */
  lemma TurnRecordsOwnExactly(ds: seq<Descriptor>)
    requires Printable(ds) && ds != []
    ensures (forall r :: RecordOne(Print(ds), r) == Own(ds[0], r)) <==> !Foreign(Print(ds))
  {
    hide FromBigEndian, Foreign, RecordOne, Own;
    if Foreign(Print(ds)) {
      var r := ForeignRecords(ds);
      assert RecordOne(Print(ds), r) != Own(ds[0], r);
    } else {
      forall r
        ensures RecordOne(Print(ds), r) == Own(ds[0], r)
      {
        TurnRecordsOwn(ds, r);
      }
    }
  }

  lemma ForeignRecords(ds: seq<Descriptor>) returns (r: Recorded)
    requires Printable(ds) && ds != [] && Foreign(Print(ds))
    ensures RecordOne(Print(ds), r) != Own(ds[0], r)
  {
    hide FromBigEndian;
    var s := Print(ds);
    assert s[1] == |ds[0].body|;
    var v := FromBigEndian(s[4..12]);
    r := Recorded(v + 1, v + 1);
  }

  lemma TurnRecordsOwn(ds: seq<Descriptor>, r: Recorded)
    requires Printable(ds) && ds != [] && !Foreign(Print(ds))
    ensures RecordOne(Print(ds), r) == Own(ds[0], r)
  {
    hide FromBigEndian;
    var s, d := Print(ds), ds[0];
    assert s[0] == d.kind && s[1] == |d.body|;
    if |d.body| >= 10 {
      assert s[4..12] == d.body[2..10] && s[2] == d.body[0];
    }
  }

  lemma {:induction false} MeaningStep(ds: seq<Descriptor>, r: Recorded)
    requires ds != []
    ensures Meaning(ds, r) == Meaning(ds[1..], Own(ds[0], r))
  {
    hide Own;
    var n := |ds| - 1;
    if n > 0 {
      MeaningStep(ds[..n], r);
      assert ds[..n][1..] == ds[1..][..n - 1];
    }
  }

  /** Unless one is foreign, the walk visits each descriptor once and records what they mean. */
  lemma {:induction false} WalkRecordsMeaning(ds: seq<Descriptor>, r: Recorded)
    requires Printable(ds) && NoneForeign(ds)
    ensures Whole(Print(ds)) && Walk(Print(ds), r) == Meaning(ds, r)
  {
    hide Own, RecordOne, Foreign;
    PrintIsWhole(ds);
    if ds != [] {
      var s, n := Print(ds), |ds[0].body|;
      assert ds[0..] == ds && s[2 + n..] == Print(ds[1..]);
      TurnRecordsOwn(ds, r);
      assert forall k :: 0 <= k < |ds[1..]| ==> ds[1..][k..] == ds[k + 1..];
      WalkRecordsMeaning(ds[1..], Own(ds[0], r));
      MeaningStep(ds, r);
    }
  }

  // ---------------------------------------------------------------------------------------------
  // Walks that end with the right values
  // ---------------------------------------------------------------------------------------------

  function Field(r: Recorded, kind: nat): nat {
    if kind == 0 then r.info else r.csinfo
  }

  /** A turn at `s` takes eight bytes for the value of `kind`. */
  predicate Takes(s: seq<byte>, kind: nat) {
    |s| >= 12 && s[0] == kind && (kind == 0 ==> s[2] >= 0x80)
  }

  /** The descriptor holds a value of `kind`. */
  predicate Genuine(d: Descriptor, kind: nat) {
    |d.body| >= 10 && d.kind == kind && (kind == 0 ==> d.body[0] >= 0x80)
  }

  /** The last descriptor at which the walk takes a value of `kind`, or -1. */
  function LastTaken(ds: seq<Descriptor>, kind: nat): (k: int)
    requires Printable(ds)
    ensures -1 <= k < |ds|
  {
    if ds == [] then -1
    else
      var rest := LastTaken(ds[1..], kind);
      if rest >= 0 then rest + 1 else if Takes(Print(ds), kind) then 0 else -1
  }

  /** The last descriptor that holds a value of `kind`, or -1. */
  function LastGenuine(ds: seq<Descriptor>, kind: nat): (k: int)
    ensures -1 <= k < |ds| && (k >= 0 ==> Genuine(ds[k], kind))
    ensures forall j :: k < j < |ds| ==> !Genuine(ds[j], kind)
  {
    if ds == [] then -1
    else
      var rest := LastGenuine(ds[1..], kind);
      if rest >= 0 then rest + 1 else if Genuine(ds[0], kind) then 0 else -1
  }

  /** The value of the bytes that a turn at `s` takes, and of those that a descriptor holds. */
  function TakenValue(s: seq<byte>): nat {
    if |s| >= 12 then FromBigEndian(s[4..12]) else 0
  }

  function OwnValue(d: Descriptor): nat
    requires |d.body| >= 10
  {
    FromBigEndian(d.body[2..10])
  }

  /**
   * The last value of `kind` that the walk takes is not held by the descriptor there, and differs from
   * the last one that any descriptor holds.
   */
  predicate Misled(ds: seq<Descriptor>, kind: nat)
    requires Printable(ds)
  {
    var k, g := LastTaken(ds, kind), LastGenuine(ds, kind);
    k >= 0 && !Genuine(ds[k], kind) && (g < 0 || OwnValue(ds[g]) != TakenValue(Print(ds[k..])))
  }

  lemma OneField(s: seq<byte>, r: Recorded, kind: nat)
    requires kind <= 1
    ensures Field(RecordOne(s, r), kind) == if Takes(s, kind) then TakenValue(s) else Field(r, kind)
  {
    hide FromBigEndian;
  }

  lemma PrintUnfolds(ds: seq<Descriptor>)
    requires Printable(ds) && ds != []
    ensures var s := Print(ds);
            |s| >= 2 && Size(s[1]) <= |s| && s[Size(s[1])..] == Print(ds[1..])
  {
  }

  lemma LastTakenUnfolds(ds: seq<Descriptor>, kind: nat)
    requires Printable(ds) && ds != []
    ensures var k, rest := LastTaken(ds, kind), LastTaken(ds[1..], kind);
            if rest >= 0 then k == rest + 1 && ds[k..] == ds[1..][rest..]
            else if Takes(Print(ds), kind) then k == 0 && ds[k..] == ds
            else k == -1
  {
    hide Takes, Print;
    var rest := LastTaken(ds[1..], kind);
    if rest >= 0 {
      DropTwice(ds, rest);
    }
    assert ds[0..] == ds;
  }

  lemma DropTwice(ds: seq<Descriptor>, n: nat)
    requires n < |ds|
    ensures ds[1..][n..] == ds[n + 1..]
  {
  }

  lemma {:induction false} WalkField(ds: seq<Descriptor>, r: Recorded, kind: nat)
    requires Printable(ds) && kind <= 1
    ensures Whole(Print(ds))
    ensures var k := LastTaken(ds, kind);
            Field(Walk(Print(ds), r), kind) == if k >= 0 then TakenValue(Print(ds[k..])) else Field(r, kind)
  {
    PrintIsWhole(ds);
    if ds != [] {
      hide FromBigEndian, Whole, Walk, RecordOne, TakenValue, LastTaken, Print;
      var s := Print(ds);
      PrintUnfolds(ds);
      LastTakenUnfolds(ds, kind);
      WalkUnfolds(s, r);
      OneField(s, r, kind);
      WalkField(ds[1..], RecordOne(s, r), kind);
    }
  }

  lemma {:induction false} MeaningField(ds: seq<Descriptor>, r: Recorded, kind: nat)
    requires kind <= 1
    ensures var g := LastGenuine(ds, kind);
            Field(Meaning(ds, r), kind) == if g >= 0 then OwnValue(ds[g]) else Field(r, kind)
  {
    hide FromBigEndian;
    if ds != [] {
      MeaningField(ds[1..], Own(ds[0], r), kind);
      MeaningStep(ds, r);
    }
  }

  /** A descriptor that holds a value is where the walk takes it. */
  lemma GenuineTaken(ds: seq<Descriptor>, kind: nat)
    requires Printable(ds) && ds != [] && Genuine(ds[0], kind)
    ensures Takes(Print(ds), kind) && TakenValue(Print(ds)) == OwnValue(ds[0])
  {
    hide FromBigEndian;
    var s, d := Print(ds), ds[0];
    assert s[4..12] == d.body[2..10] && s[2] == d.body[0];
  }

  lemma {:induction false} GenuineFirst(ds: seq<Descriptor>, kind: nat)
    requires Printable(ds)
    ensures LastGenuine(ds, kind) <= LastTaken(ds, kind)
  {
    hide Takes, Genuine;
    if ds != [] {
      GenuineFirst(ds[1..], kind);
      if Genuine(ds[0], kind) {
        GenuineTaken(ds, kind);
      }
    }
  }

  lemma FieldRight(ds: seq<Descriptor>, r: Recorded, kind: nat)
    requires Printable(ds) && Whole(Print(ds)) && kind <= 1 && !Misled(ds, kind)
    ensures Field(Walk(Print(ds), r), kind) == Field(Meaning(ds, r), kind)
  {
    hide FromBigEndian, Takes, Genuine, OwnValue, TakenValue, Walk, Meaning;
    WalkField(ds, r, kind);
    MeaningField(ds, r, kind);
    GenuineFirst(ds, kind);
    var k := LastTaken(ds, kind);
    if k >= 0 && Genuine(ds[k], kind) {
      GenuineTaken(ds[k..], kind);
    }
  }

  lemma FieldWrong(ds: seq<Descriptor>, kind: nat) returns (r: Recorded)
    requires Printable(ds) && Whole(Print(ds)) && kind <= 1 && Misled(ds, kind)
    ensures Walk(Print(ds), r) != Meaning(ds, r)
  {
    hide FromBigEndian, Genuine, OwnValue, TakenValue, Walk, Meaning;
    var v := TakenValue(Print(ds[LastTaken(ds, kind)..]));
    r := Recorded(v + 1, v + 1);
    WalkField(ds, r, kind);
    MeaningField(ds, r, kind);
  }

  /**
   * Exactly when a whole walk records what the descriptors mean, for descriptors of every length: a value
   * taken from a short descriptor does no harm if a later one of its kind holds its own, or if it is equal
   * to the last one that does.
   */
  lemma WalkRecordsMeaningExactly(ds: seq<Descriptor>)
    requires Printable(ds)
    ensures Whole(Print(ds))
    ensures (forall r :: Walk(Print(ds), r) == Meaning(ds, r)) <==> !Misled(ds, 0) && !Misled(ds, 1)
  {
    hide Misled, Walk, Meaning, Whole;
    PrintIsWhole(ds);
    if Misled(ds, 0) {
      var r := FieldWrong(ds, 0);
    } else if Misled(ds, 1) {
      var r := FieldWrong(ds, 1);
    } else {
      forall r
        ensures Walk(Print(ds), r) == Meaning(ds, r)
      {
        FieldRight(ds, r, 0);
        FieldRight(ds, r, 1);
      }
    }
  }

  /** Descriptors of the lengths of the standard are never foreign. */
  lemma ProperNeverForeign(ds: seq<Descriptor>)
    requires Printable(ds) && forall i :: 0 <= i < |ds| && ds[i].kind <= 1 ==> |ds[i].body| >= 10
    ensures NoneForeign(ds)
  {
  }

  /** An information descriptor that is too short makes the walk record bytes of the next one. */
  lemma ShortDescriptorMisread()
    ensures var ds := [Descriptor(0, []), Descriptor(0x80, [0, 0, 0, 0, 0, 0, 0, 7, 0, 0])];
            && Print(ds) == [0, 0, 0x80, 10, 0, 0, 0, 0, 0, 0, 0, 7, 0, 0] && Whole(Print(ds))
            && Walk(Print(ds), Recorded(0, 0)) == Recorded(7, 0) && Meaning(ds, Recorded(0, 0)) == Recorded(0, 0)
  {
    hide FromBigEndian, Walk, Whole;
    var first, last := Descriptor(0, []), Descriptor(0x80, [0, 0, 0, 0, 0, 0, 0, 7, 0, 0]);
    var ds := [first, last];
    EmptyThen(last);
    assert last.body[..8] == [0, 0, 0, 0, 0, 0, 0, 7];
    SevenBigEndian();
    MeaningStep(ds, Recorded(0, 0));
    assert ds[1..] == [last] && ds[1..][..0] == [];
  }

  /** After an empty information descriptor, the bytes of the next one are taken for the value. */
  lemma EmptyThen(last: Descriptor)
    requires last.kind >= 0x80 && |last.body| == 10
    ensures var s := Print([Descriptor(0, []), last]);
            && s == [0, 0, last.kind, 10] + last.body && Whole(s)
            && Walk(s, Recorded(0, 0)) == Recorded(FromBigEndian(last.body[..8]), 0)
  {
    hide FromBigEndian, Walk, Whole, Print;
    var ds := [Descriptor(0, []), last];
    var s, t, v := Print(ds), Print([last]), FromBigEndian(last.body[..8]);
    PrintsEmptyThen(last);
    PrintIsWhole(ds);
    WalkUnfolds(s, Recorded(0, 0));
    WalkUnfolds(t, Recorded(v, 0));
    WalkEnds(t, 12, Recorded(v, 0));
  }

  lemma PrintsEmptyThen(last: Descriptor)
    requires |last.body| == 10
    ensures var s, t := Print([Descriptor(0, []), last]), Print([last]);
            && s == [0, 0, last.kind, 10] + last.body && s[2..] == t && s[4..12] == last.body[..8]
            && t == [last.kind, 10] + last.body && t[12..] == t[12..12]
  {
    assert [Descriptor(0, []), last][1..] == [last] && [last][1..] == [] && Print([]) == [];
    assert Print([last]) == [last.kind, 10] + last.body + [];
    assert Print([Descriptor(0, []), last]) == [0, 0] + [] + Print([last]);
  }

  lemma SevenBigEndian()
    ensures FromBigEndian([0, 0, 0, 0, 0, 0, 0, 7]) == 7
  {
    assert ToBigEndian(7, 8) == [0, 0, 0, 0, 0, 0, 0, 7];
    BigEndianRoundTrip(7, 8);
  }

  // ---------------------------------------------------------------------------------------------
  // The extended error of a thread
  // ---------------------------------------------------------------------------------------------

  const SENSE_MAX_LENGTH: nat := 64

  class ExtendedError {
    var senseKey: nat
    var ascAscq: nat
    var info: nat
    var csinfo: nat

    method Clear()
      modifies this
      ensures senseKey == 0 && ascAscq == 0 && info == 0 && csinfo == 0
    {
      senseKey, ascAscq, info, csinfo := 0, 0, 0, 0;
    }

    /**
     * Records the sense data of a command. In the descriptor format the walk covers exactly the bytes
     * declared by the additional length, which must be whole descriptors inside the sense buffer.
     */
    method SetSense(sb: seq<byte>, received: nat)
      requires |sb| == SENSE_MAX_LENGTH
      requires received >= 8 && sb[0] % 0x80 in {0x72, 0x73} ==> 8 + sb[7] <= |sb| && Whole(sb[8..8 + sb[7]])
      modifies this
      ensures sb[0] % 0x80 in {0x72, 0x73} && received >= 8 ==>
                && senseKey == sb[1] % 0x10 && ascAscq == FromBigEndian(sb[2..4])
                && Recorded(info, csinfo) == Walk(sb[8..8 + sb[7]], Recorded(0, 0))
                && forall ds :: Printable(ds) && !Misled(ds, 0) && !Misled(ds, 1) && Print(ds) == sb[8..8 + sb[7]] ==>
                     Recorded(info, csinfo) == Meaning(ds, Recorded(0, 0))
      ensures sb[0] % 0x80 in {0x70, 0x71} && received >= 14 ==>
                && senseKey == sb[2] % 0x10 && ascAscq == FromBigEndian(sb[12..14])
                && info == FromBigEndian(sb[3..7]) && csinfo == FromBigEndian(sb[8..12])
      ensures !(sb[0] % 0x80 in {0x72, 0x73} && received >= 8) && !(sb[0] % 0x80 in {0x70, 0x71} && received >= 14) ==>
                senseKey == 0 && ascAscq == 0 && info == 0 && csinfo == 0
    {
      hide FromBigEndian, Walk, Meaning, Whole, Misled;
      Clear();
      var format := MaskedFormat(sb[0]);
      if format == 0x72 || format == 0x73 {
        if received < 8 {
          return;
        }
        senseKey, ascAscq := MaskedKey(sb[1]), TwoByteCode(sb, 2);
        WalkDescriptors(sb, 8, sb[7]);
        forall ds | Printable(ds) && !Misled(ds, 0) && !Misled(ds, 1) && Print(ds) == sb[8..8 + sb[7]]
          ensures Recorded(info, csinfo) == Meaning(ds, Recorded(0, 0))
        {
          WalkRecordsMeaningExactly(ds);
        }
        return;
      }
      if (format != 0x70 && format != 0x71) || received < 14 {
        return;
      }
      senseKey, ascAscq := MaskedKey(sb[2]), TwoByteCode(sb, 12);
      assert sb[3..7][..4] == sb[3..7] && sb[8..12][..4] == sb[8..12];
      info := GetBytes(sb[3..7], 4);
      csinfo := GetBytes(sb[8..12], 4);
    }

    /** The loop over the descriptors: `desc` and `nbytes` move together to the declared end. */
    method WalkDescriptors(sb: seq<byte>, start: nat, length: nat)
      requires start + length <= |sb| && Whole(sb[start..start + length])
      modifies `info, `csinfo
      ensures Recorded(info, csinfo) == Walk(sb[start..start + length], Recorded(old(info), old(csinfo)))
    {
      hide FromBigEndian, Walk, Whole;
      var desc: nat, nbytes: nat := start, length;
      while nbytes > 0
        invariant desc + nbytes == start + length && Whole(sb[desc..desc + nbytes])
        invariant Walk(sb[desc..desc + nbytes], Recorded(info, csinfo))
               == Walk(sb[start..start + length], Recorded(old(info), old(csinfo)))
      {
        WalkStep(sb, desc, nbytes, Recorded(info, csinfo));
        if sb[desc] == 0 && nbytes >= 12 && sb[desc + 2] >= 0x80 {
          info := GetBytes(sb[desc + 4..desc + 12], 8);
        } else if sb[desc] == 1 && nbytes >= 12 {
          csinfo := GetBytes(sb[desc + 4..desc + 12], 8);
        }
        var size := Size(sb[desc + 1]);
        nbytes := nbytes - size;
        desc := desc + size;
      }
      WalkEnds(sb, desc, Recorded(info, csinfo));
    }
  }

  lemma WalkEnds(sb: seq<byte>, desc: nat, r: Recorded)
    requires desc <= |sb|
    ensures Whole(sb[desc..desc]) && Walk(sb[desc..desc], r) == r
  {
  }

  /** The size of a descriptor with the given additional length. */
  function Size(additional: nat): nat {
    2 + additional
  }

  lemma SliceOfSlice(sb: seq<byte>, lo: nat, n: nat, i: nat, j: nat)
    requires lo + n <= |sb| && i <= j <= n
    ensures sb[lo..lo + n][i..j] == sb[lo + i..lo + j]
  {
    var a, b := sb[lo..lo + n][i..j], sb[lo + i..lo + j];
    forall k | 0 <= k < j - i
      ensures a[k] == b[k]
    {
    }
  }

  /** One turn of the loop, in terms of the bytes at the pointer. */
  lemma WalkStep(sb: seq<byte>, desc: nat, nbytes: nat, r: Recorded)
    requires 0 < nbytes && desc + nbytes <= |sb| && Whole(sb[desc..desc + nbytes])
    ensures nbytes >= 2 && Size(sb[desc + 1]) <= nbytes
    ensures nbytes >= 12 ==> sb[desc + 4..desc + 12][..8] == sb[desc + 4..desc + 12]
    ensures var one := if sb[desc] == 0 && nbytes >= 12 && sb[desc + 2] >= 0x80 then
                         r.(info := FromBigEndian(sb[desc + 4..desc + 12]))
                       else if sb[desc] == 1 && nbytes >= 12 then
                         r.(csinfo := FromBigEndian(sb[desc + 4..desc + 12]))
                       else r;
            var next := desc + Size(sb[desc + 1]);
            && Whole(sb[next..desc + nbytes])
            && Walk(sb[desc..desc + nbytes], r) == Walk(sb[next..desc + nbytes], one)
  {
    hide FromBigEndian, Walk, Whole;
    var s := sb[desc..desc + nbytes];
    WalkUnfolds(s, r);
    assert s[0] == sb[desc] && s[1] == sb[desc + 1];
    SliceOfSlice(sb, desc, nbytes, Size(s[1]), nbytes);
    assert s[Size(s[1])..] == s[Size(s[1])..nbytes];
    if nbytes >= 12 {
      assert s[2] == sb[desc + 2];
      SliceOfSlice(sb, desc, nbytes, 4, 12);
    }
  }

  lemma WalkUnfolds(s: seq<byte>, r: Recorded)
    requires s != [] && Whole(s)
    ensures |s| >= 2 && Size(s[1]) <= |s| && Whole(s[Size(s[1])..])
    ensures Walk(s, r) == Walk(s[Size(s[1])..], RecordOne(s, r))
  {
    hide FromBigEndian, RecordOne;
  }

  /** `b & 0x7f` */
  function MaskedFormat(b: byte): (r: nat)
    ensures r == b % 0x80
  {
    assert PowerOfTwo(0x80);
    AndMask(b, 0x80);
    And(b, 0x7F)
  }

  /** `b & 0x0f` */
  function MaskedKey(b: byte): (r: nat)
    ensures r == b % 0x10
  {
    assert PowerOfTwo(0x10);
    AndMask(b, 0x10);
    And(b, 0x0F)
  }

  /** `(sb[at] << 8) | sb[at + 1]` */
  function TwoByteCode(sb: seq<byte>, at: nat): (r: nat)
    requires at + 2 <= |sb|
    ensures r == FromBigEndian(sb[at..at + 2])
  {
    assert PowerOfTwo(0x100);
    OrDisjoint(sb[at], sb[at + 1], 0x100);
    TwoBigEndian(sb[at..at + 2]);
    Or(sb[at + 1], Shifted(sb[at], 0x100))
  }

  lemma TwoBigEndian(s: seq<byte>)
    requires |s| == 2
    ensures FromBigEndian(s) == Shifted(s[0], 0x100) + s[1]
  {
    assert s[..1][..0] == [];
    assert FromBigEndian(s[..1]) == s[0];
  }
}
