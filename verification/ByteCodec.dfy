/** Byte order: the SCSI codec of lib/zbc_sg.c, the ATA getters and LBA encodings of lib/zbc_ata.c. */
module ByteCodec {
  import opened Bits

  function Pow256(n: nat): (p: nat)
    ensures p > 0
  {
    if n == 0 then 1 else 256 * Pow256(n - 1)
  }

  // ---------------------------------------------------------------------------------------------
  // Big endian and little endian values
  // ---------------------------------------------------------------------------------------------

  function ToBigEndian(v: nat, n: nat): (bytes: seq<byte>)
    ensures |bytes| == n
  {
    if n == 0 then [] else ToBigEndian(v / 256, n - 1) + [v % 256]
  }

  function FromBigEndian(bytes: seq<byte>): nat {
    if bytes == [] then 0 else FromBigEndian(bytes[..|bytes| - 1]) * 256 + bytes[|bytes| - 1]
  }

  function ToLittleEndian(v: nat, n: nat): (bytes: seq<byte>)
    ensures |bytes| == n
  {
    if n == 0 then [] else [v % 256] + ToLittleEndian(v / 256, n - 1)
  }

  function FromLittleEndian(bytes: seq<byte>): nat {
    if bytes == [] then 0 else bytes[0] + 256 * FromLittleEndian(bytes[1..])
  }

  function Reverse(bytes: seq<byte>): (r: seq<byte>)
    ensures |r| == |bytes| && forall i :: 0 <= i < |r| ==> r[i] == bytes[|bytes| - 1 - i]
  {
    if bytes == [] then [] else Reverse(bytes[1..]) + [bytes[0]]
  }

  lemma {:induction false} BigEndianReverses(v: nat, n: nat)
    ensures ToBigEndian(v, n) == Reverse(ToLittleEndian(v, n))
  {
    if n > 0 {
      BigEndianReverses(v / 256, n - 1);
    }
  }

  lemma {:induction false} FromReverse(bytes: seq<byte>)
    ensures FromBigEndian(Reverse(bytes)) == FromLittleEndian(bytes)
  {
    if bytes != [] {
      FromReverse(bytes[1..]);
      var r := Reverse(bytes);
      assert r[..|r| - 1] == Reverse(bytes[1..]);
    }
  }

  /** Decoding an encoded value gives its low bytes back: the value itself if it fits. */
  lemma {:induction false} LittleEndianRoundTrip(v: nat, n: nat)
    ensures FromLittleEndian(ToLittleEndian(v, n)) == v % Pow256(n)
  {
    if n > 0 {
      LittleEndianRoundTrip(v / 256, n - 1);
      LowBytes(v, Pow256(n - 1));
    }
  }

  lemma LowBytes(v: nat, m: nat)
    requires m > 0
    ensures v % 256 + 256 * (v / 256 % m) == v % (256 * m)
  {
    var q, r := Quotient(v / 256, m);
    assert v == q * (256 * m) + (v % 256 + 256 * r);
    DivModUnique(v, 256 * m, q, v % 256 + 256 * r);
  }

  lemma BigEndianRoundTrip(v: nat, n: nat)
    ensures FromBigEndian(ToBigEndian(v, n)) == v % Pow256(n)
  {
    BigEndianReverses(v, n);
    FromReverse(ToLittleEndian(v, n));
    LittleEndianRoundTrip(v, n);
  }

  /** The first of big-endian bytes is the most significant. */
  lemma {:induction false} BigEndianFirst(b: byte, rest: seq<byte>)
    ensures FromBigEndian([b] + rest) == b * Pow256(|rest|) + FromBigEndian(rest)
  {
    var bytes := [b] + rest;
    if rest == [] {
      assert bytes[..0] == [];
    } else {
      var front := rest[..|rest| - 1];
      BigEndianFirst(b, front);
      assert bytes[..|bytes| - 1] == [b] + front;
      Distribute(b, Pow256(|front|));
    }
  }

  /** Byte `k` of a value. */
  lemma {:induction false} LittleEndianByte(v: nat, n: nat, k: nat)
    requires k < n
    ensures ToLittleEndian(v, n)[k] == v / Pow256(k) % 256
  {
    if k > 0 {
      LittleEndianByte(v / 256, n - 1, k - 1);
      DivDiv(v, 256, Pow256(k - 1));
    }
  }

  lemma {:induction false} FromBigEndianBound(bytes: seq<byte>)
    ensures FromBigEndian(bytes) < Pow256(|bytes|)
  {
    if bytes != [] {
      FromBigEndianBound(bytes[..|bytes| - 1]);
    }
  }

  /** Decoding loses nothing: the bytes are the encoding of their value. */
  lemma {:induction false} BigEndianFaithful(bytes: seq<byte>)
    ensures ToBigEndian(FromBigEndian(bytes), |bytes|) == bytes
  {
    if bytes != [] {
      var front, last := bytes[..|bytes| - 1], bytes[|bytes| - 1];
      BigEndianFaithful(front);
      assert FromBigEndian(bytes) / 256 == FromBigEndian(front) && FromBigEndian(bytes) % 256 == last;
    }
  }

  // ---------------------------------------------------------------------------------------------
  // The SCSI codec, on a little-endian host
  // ---------------------------------------------------------------------------------------------

  lemma {:induction false} LittleEndianPrefix(v: nat, n: nat, m: nat)
    requires n <= m
    ensures ToLittleEndian(v, m)[..n] == ToLittleEndian(v, n)
  {
    if n > 0 {
      LittleEndianPrefix(v / 256, n - 1, m - 1);
    }
  }

  /** A store leaves the slices beside it alone. */
  lemma OverwriteKeeps(s: seq<byte>, at: nat, bytes: seq<byte>, i: nat, j: nat)
    requires at + |bytes| <= |s| && i <= j <= |s| && (j <= at || at + |bytes| <= i)
    ensures Overwrite(s, at, bytes)[i..j] == s[i..j]
  {
    var a, b := Overwrite(s, at, bytes)[i..j], s[i..j];
    forall k | 0 <= k < j - i
      ensures a[k] == b[k]
    {
    }
  }

  /** The bytes from `i` to `j` are clear. */
  predicate Clear(s: seq<byte>, i: nat, j: nat) {
    i <= j <= |s| && forall k :: i <= k < j ==> s[k] == 0
  }

  /** A store leaves the clear bytes beside it clear. */
  lemma OverwriteClear(s: seq<byte>, at: nat, bytes: seq<byte>, i: nat, j: nat)
    requires at + |bytes| <= |s| && Clear(s, i, j) && (j <= at || at + |bytes| <= i)
    ensures Clear(Overwrite(s, at, bytes), i, j)
  {
  }

  lemma OverwriteAt(s: seq<byte>, at: nat, bytes: seq<byte>)
    requires at + |bytes| <= |s|
    ensures Overwrite(s, at, bytes)[at..at + |bytes|] == bytes
  {
  }

  lemma SliceAfter(first: seq<byte>, others: seq<byte>, lo: nat, hi: nat)
    requires |first| <= lo <= hi <= |first| + |others|
    ensures (first + others)[lo..hi] == others[lo - |first|..hi - |first|]
  {
  }

  /** Stores the low `n` bytes of a 64-bit host integer, most significant first. */
  method SetBytes(cdb: array<byte>, at: nat, value: nat, n: nat)
    requires n <= 8 && at + n <= cdb.Length
    modifies cdb
    ensures cdb[at..at + n] == ToBigEndian(value, n)
    ensures cdb[..] == Overwrite(old(cdb[..]), at, ToBigEndian(value, n))
    ensures cdb[..at] == old(cdb[..at]) && cdb[at + n..] == old(cdb[at + n..])
  {
    var host := ToLittleEndian(value, 8);
    for i := 0 to n
      invariant forall k :: 0 <= k < i ==> cdb[at + n - k - 1] == host[k]
      invariant cdb[..at] == old(cdb[..at]) && cdb[at + n..] == old(cdb[at + n..])
    {
      cdb[at + n - i - 1] := host[i];
    }
    StoredBytes(cdb[at..at + n], value, n);
    assert cdb[..] == cdb[..at] + cdb[at..at + n] + cdb[at + n..];
    assert old(cdb[..])[..at] == old(cdb[..at]) && old(cdb[..])[at + n..] == old(cdb[at + n..]);
  }

  lemma StoredBytes(stored: seq<byte>, value: nat, n: nat)
    requires n <= 8 && |stored| == n
    requires forall k :: 0 <= k < n ==> stored[n - k - 1] == ToLittleEndian(value, 8)[k]
    ensures stored == ToBigEndian(value, n)
  {
    LittleEndianPrefix(value, n, 8);
    BigEndianReverses(value, n);
    var host := ToLittleEndian(value, n);
    forall k | 0 <= k < n
      ensures stored[k] == Reverse(host)[k]
    {
      assert stored[n - (n - 1 - k) - 1] == host[n - 1 - k];
    }
  }

  /** Loads `n` big-endian bytes into a cleared 64-bit host integer. */
  method GetBytes(val: seq<byte>, n: nat) returns (value: nat)
    requires n <= 8 && n <= |val|
    ensures value == FromBigEndian(val[..n])
    ensures value < Pow256(n)
  {
    var conv := new byte[8](_ => 0);
    for i := 0 to n
      invariant forall k :: 0 <= k < i ==> conv[n - k - 1] == val[k]
      invariant forall k :: n <= k < 8 ==> conv[k] == 0
    {
      conv[n - i - 1] := val[i];
    }
    value := FromLittleEndian(conv[..]);
    LoadedValue(conv[..], val, n);
    FromBigEndianBound(val[..n]);
  }

  lemma ReverseIs(low: seq<byte>, high: seq<byte>)
    requires |low| == |high| && forall k :: 0 <= k < |low| ==> low[|low| - k - 1] == high[k]
    ensures Reverse(low) == high
  {
    forall k | 0 <= k < |low|
      ensures Reverse(low)[k] == high[k]
    {
      assert low[|low| - 1 - k] == low[|low| - k - 1];
    }
  }

  lemma LoadedValue(conv: seq<byte>, val: seq<byte>, n: nat)
    requires n <= |val| && n <= |conv|
    requires forall k :: 0 <= k < n ==> conv[n - k - 1] == val[k]
    requires forall k :: n <= k < |conv| ==> conv[k] == 0
    ensures FromLittleEndian(conv) == FromBigEndian(val[..n])
  {
    hide FromLittleEndian, FromBigEndian, Reverse;
    var low := conv[..n];
    ReverseIs(low, val[..n]);
    FromReverse(low);
    TrailingZeros(low, |conv| - n);
    assert conv == low + seq(|conv| - n, _ => 0);
  }

  lemma {:induction false} TrailingZeros(bytes: seq<byte>, n: nat)
    ensures FromLittleEndian(bytes + seq(n, _ => 0)) == FromLittleEndian(bytes)
    decreases |bytes| + n
  {
    var zeros: seq<byte> := seq(n, _ => 0);
    if bytes == [] {
      assert bytes + zeros == zeros;
      if n > 0 {
        var fewer: seq<byte> := seq(n - 1, _ => 0);
        assert zeros[1..] == fewer && [] + fewer == fewer;
        TrailingZeros([], n - 1);
      }
    } else {
      TrailingZeros(bytes[1..], n);
      assert (bytes + zeros)[1..] == bytes[1..] + zeros;
    }
  }

  /** Every value of every width from 0 to 8 bytes survives a store and a load. */
  method StoreThenLoad(cdb: array<byte>, at: nat, value: nat, n: nat) returns (loaded: nat)
    requires n <= 8 && at + n <= cdb.Length
    modifies cdb
    ensures loaded == value % Pow256(n)
  {
    SetBytes(cdb, at, value, n);
    loaded := GetBytes(cdb[at..at + n], n);
    assert cdb[at..at + n][..n] == cdb[at..at + n];
    BigEndianRoundTrip(value, n);
  }

  // ---------------------------------------------------------------------------------------------
  // The ATA getters
  // ---------------------------------------------------------------------------------------------

  /** `x << shift`, with the shift given as a power of two. */
  function Shifted(x: byte, unit: nat): nat {
    x * unit
  }

  function AtaGetDword(buf: seq<byte>): nat
    requires |buf| >= 4
  {
    Or(Or(Or(buf[0], Shifted(buf[1], 0x100)), Shifted(buf[2], 0x1_0000)), Shifted(buf[3], 0x100_0000))
  }

  function AtaGetLba(buf: seq<byte>): nat
    requires |buf| >= 6
  {
    Or(Or(AtaGetDword(buf), Shifted(buf[4], 0x1_0000_0000)), Shifted(buf[5], 0x100_0000_0000))
  }

  function AtaGetQword(buf: seq<byte>): nat
    requires |buf| >= 8
  {
    Or(Or(AtaGetLba(buf), Shifted(buf[6], 0x1_0000_0000_0000)), Shifted(buf[7], 0x100_0000_0000_0000))
  }

  lemma {:induction false} PowerOf256(n: nat)
    ensures PowerOfTwo(Pow256(n))
  {
    if n > 0 {
      PowerOf256(n - 1);
      assert PowerOfTwo(256);
      PowerOfTwoProduct(256, Pow256(n - 1));
    }
  }

  lemma {:induction false} LittleEndianBound(bytes: seq<byte>)
    ensures FromLittleEndian(bytes) < Pow256(|bytes|)
  {
    if bytes != [] {
      LittleEndianBound(bytes[1..]);
    }
  }

  lemma {:induction false} LittleEndianAppend(bytes: seq<byte>, b: byte)
    ensures FromLittleEndian(bytes + [b]) == FromLittleEndian(bytes) + b * Pow256(|bytes|)
  {
    if bytes == [] {
      assert [] + [b] == [b] && [b][1..] == [];
    } else {
      LittleEndianAppend(bytes[1..], b);
      assert (bytes + [b])[1..] == bytes[1..] + [b];
      Distribute(b, Pow256(|bytes| - 1));
    }
  }

  lemma Distribute(b: nat, p: nat)
    ensures b * (256 * p) == 256 * (b * p)
  {
  }

  /** Joining the next higher byte with `|` extends a little-endian value. */
  lemma OrNextByte(buf: seq<byte>, n: nat)
    requires n < |buf|
    ensures Or(FromLittleEndian(buf[..n]), Shifted(buf[n], Pow256(n))) == FromLittleEndian(buf[..n + 1])
  {
    PowerOf256(n);
    LittleEndianBound(buf[..n]);
    OrDisjoint(buf[n], FromLittleEndian(buf[..n]), Pow256(n));
    LittleEndianAppend(buf[..n], buf[n]);
    assert buf[..n + 1] == buf[..n] + [buf[n]];
  }

  /** The shift-and-or getters read little-endian values of 4, 6 and 8 bytes. */
  lemma AtaGetters(buf: seq<byte>)
    requires |buf| >= 8
    ensures AtaGetDword(buf) == FromLittleEndian(buf[..4])
    ensures AtaGetLba(buf) == FromLittleEndian(buf[..6])
    ensures AtaGetQword(buf) == FromLittleEndian(buf[..8])
  {
    hide Or, FromLittleEndian;
    Powers256();
    FirstByte(buf);
    OrNextByte(buf, 1);
    OrNextByte(buf, 2);
    OrNextByte(buf, 3);
    OrNextByte(buf, 4);
    OrNextByte(buf, 5);
    OrNextByte(buf, 6);
    OrNextByte(buf, 7);
  }

  lemma FirstByte(buf: seq<byte>)
    requires |buf| >= 1
    ensures FromLittleEndian(buf[..1]) == buf[0]
  {
    assert buf[..1][1..] == [];
  }

  // ---------------------------------------------------------------------------------------------
  // LBAs in ATA PASS-THROUGH (16) command blocks
  // ---------------------------------------------------------------------------------------------

  /** Stores a 48-bit LBA in the interleaved order of bytes 7 to 12 of the command block. */
  method AtaPutLba(cdb: array<byte>, lba: nat)
    requires cdb.Length >= 13
    modifies cdb
    ensures cdb[8] == lba % 256 && cdb[10] == lba / 0x100 % 256 && cdb[12] == lba / 0x1_0000 % 256
    ensures cdb[7] == lba / 0x100_0000 % 256 && cdb[9] == lba / 0x1_0000_0000 % 256
    ensures cdb[11] == lba / 0x100_0000_0000 % 256
    ensures CdbLba(cdb[..]) == lba % Pow256(6)
    ensures cdb[..7] == old(cdb[..7]) && cdb[13..] == old(cdb[13..])
  {
    cdb[8] := lba % 256;
    cdb[10] := lba / 0x100 % 256;
    cdb[12] := lba / 0x1_0000 % 256;
    cdb[7] := lba / 0x100_0000 % 256;
    cdb[9] := lba / 0x1_0000_0000 % 256;
    cdb[11] := lba / 0x100_0000_0000 % 256;
    LbaBytes(lba);
  }

  /** The LBA field as the drive reads it: bytes 8, 10, 12, 7, 9, 11, least significant first. */
  function CdbLba(cdb: seq<byte>): nat
    requires |cdb| >= 13
  {
    FromLittleEndian([cdb[8], cdb[10], cdb[12], cdb[7], cdb[9], cdb[11]])
  }

  lemma LbaBytes(lba: nat)
    ensures FromLittleEndian([lba % 256, lba / 0x100 % 256, lba / 0x1_0000 % 256, lba / 0x100_0000 % 256,
                              lba / 0x1_0000_0000 % 256, lba / 0x100_0000_0000 % 256])
         == lba % Pow256(6)
  {
    hide FromLittleEndian, ToLittleEndian;
    Powers256();
    LittleEndianByte(lba, 6, 0);
    LittleEndianByte(lba, 6, 1);
    LittleEndianByte(lba, 6, 2);
    LittleEndianByte(lba, 6, 3);
    LittleEndianByte(lba, 6, 4);
    LittleEndianByte(lba, 6, 5);
    var bytes := ToLittleEndian(lba, 6);
    assert bytes == [bytes[0], bytes[1], bytes[2], bytes[3], bytes[4], bytes[5]];
    LittleEndianRoundTrip(lba, 6);
  }

  lemma Powers256()
    ensures Pow256(0) == 1 && Pow256(1) == 0x100 && Pow256(2) == 0x1_0000 && Pow256(3) == 0x100_0000
    ensures Pow256(4) == 0x1_0000_0000 && Pow256(5) == 0x100_0000_0000
    ensures Pow256(6) == 0x1_0000_0000_0000 && Pow256(7) == 0x100_0000_0000_0000
    ensures Pow256(8) == 0x1_0000_0000_0000_0000
  {
  }

  /** The SET FEATURES form: 28 bits, the top four sharing byte 13 with the device bit 6. */
  method AtaPutFeatureLba(cdb: array<byte>, lba: nat)
    requires cdb.Length >= 14
    modifies cdb
    ensures CdbFeatureLba(cdb[..]) == lba <==> lba < 0x1000_0000
    ensures cdb[8] == lba % 256 && cdb[10] == lba / 0x100 % 256 && cdb[12] == lba / 0x1_0000 % 256
    ensures lba < 0x1000_0000 ==> cdb[13] == lba / 0x100_0000 + 0x40
    ensures forall k :: 0 <= k < cdb.Length && k !in {8, 10, 12, 13} ==> cdb[k] == old(cdb[k])
  {
    hide Or, FromLittleEndian, PowerOfTwo;
    var high := lba / 0x100_0000 % 256;
    DeviceByte(high);
    cdb[8] := lba % 256;
    cdb[10] := lba / 0x100 % 256;
    cdb[12] := lba / 0x1_0000 % 256;
    cdb[13] := high;
    cdb[13] := Or(cdb[13], 0x40);
    FeatureBytes(cdb[8], cdb[10], cdb[12], cdb[13] % 16, lba);
  }

  /** Bit 6 joins the top bits of the LBA in one byte, apart from them if there are four. */
  lemma DeviceByte(high: byte)
    ensures Or(high, 0x40) < 256
    ensures high < 16 ==> Or(high, 0x40) == high + 0x40
  {
    hide Or;
    assert PowerOfTwo(256) && PowerOfTwo(64);
    OrBound(high, 0x40, 256);
    if high < 16 {
      OrDisjoint(1, high, 64);
    }
  }

  /** The SET FEATURES LBA as the drive reads it: three bytes and the low half of the device byte. */
  function CdbFeatureLba(cdb: seq<byte>): nat
    requires |cdb| >= 14
  {
    FromLittleEndian([cdb[8], cdb[10], cdb[12], cdb[13] % 16])
  }

  lemma FeatureBytes(b0: byte, b1: byte, b2: byte, b3: byte, lba: nat)
    requires b0 == lba % 256 && b1 == lba / 0x100 % 256 && b2 == lba / 0x1_0000 % 256 && b3 < 16
    requires lba < 0x1000_0000 ==> b3 == lba / 0x100_0000
    ensures FromLittleEndian([b0, b1, b2, b3]) == lba <==> lba < 0x1000_0000
  {
    hide FromLittleEndian, ToLittleEndian;
    if lba < 0x1000_0000 {
      Powers256();
      LittleEndianByte(lba, 4, 0);
      LittleEndianByte(lba, 4, 1);
      LittleEndianByte(lba, 4, 2);
      LittleEndianByte(lba, 4, 3);
      assert ToLittleEndian(lba, 4) == [b0, b1, b2, b3];
      LittleEndianRoundTrip(lba, 4);
    } else {
      FourBytes(b0, b1, b2, b3);
    }
  }

  lemma FourBytes(b0: byte, b1: byte, b2: byte, b3: byte)
    ensures FromLittleEndian([b0, b1, b2, b3]) == b0 + 0x100 * b1 + 0x1_0000 * b2 + 0x100_0000 * b3
  {
    var four, three, two, one := [b0, b1, b2, b3], [b1, b2, b3], [b2, b3], [b3];
    assert four[1..] == three && three[1..] == two && two[1..] == one && one[1..] == [];
    assert FromLittleEndian(one) == b3;
    assert FromLittleEndian(two) == b2 + 256 * FromLittleEndian(one);
    assert FromLittleEndian(three) == b1 + 256 * FromLittleEndian(two);
  }
}
