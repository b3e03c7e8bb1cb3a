/**
 * I/O vectors, and `zbc_iov_convert` of lib/zbc.c, which re-slices a vector at a sector offset under
 * a memory page budget.
 *
 * A vector stands for the list of byte addresses it covers, in order (`Addresses`).
 */
module IoVector {
  import opened Bits

  /** One buffer: its address, and its length in sectors (caller side) or bytes (driver side). */
  datatype Iovec = Iovec(base: nat, len: nat)

  type PageSize = p: nat | p > 0 && PowerOfTwo(p) && p % 512 == 0 witness 4096

  function Span(base: nat, n: nat): (addresses: seq<nat>)
    ensures |addresses| == n
  {
    seq(n, i => base + i)
  }

  /** The byte addresses of a vector whose lengths count units of `unit` bytes. */
  function Addresses(iov: seq<Iovec>, unit: nat): seq<nat> {
    if iov == [] then [] else Span(iov[0].base, iov[0].len * unit) + Addresses(iov[1..], unit)
  }

  /** The sum of the lengths of a vector. */
  function TotalLength(iov: seq<Iovec>): nat {
    if iov == [] then 0 else iov[0].len + TotalLength(iov[1..])
  }

  predicate Distinct(addresses: seq<nat>) {
    forall i, j :: 0 <= i < j < |addresses| ==> addresses[i] != addresses[j]
  }

  /** The accumulating loop that counts the sectors of a vector. */
  method CountSectors(iov: seq<Iovec>) returns (count: nat)
    ensures count == TotalLength(iov)
    ensures count * 512 == |Addresses(iov, 512)|
  {
    count := 0;
    for i := 0 to |iov|
      invariant count + TotalLength(iov[i..]) == TotalLength(iov)
    {
      count := count + iov[i].len;
    }
    AddressesLength(iov, 512);
  }

  lemma Distributes(a: nat, b: nat, unit: nat)
    ensures (a + b) * unit == a * unit + b * unit
  {
  }

  lemma {:induction false} AddressesLength(iov: seq<Iovec>, unit: nat)
    ensures |Addresses(iov, unit)| == TotalLength(iov) * unit
  {
    if iov != [] {
      AddressesLength(iov[1..], unit);
      Distributes(iov[0].len, TotalLength(iov[1..]), unit);
    }
  }

  /** Two buffers of the caller share no byte. */
  predicate Apart(x: Iovec, y: Iovec) {
    x.len == 0 || y.len == 0 || x.base + x.len * 512 <= y.base || y.base + y.len * 512 <= x.base
  }

  lemma {:induction false} InAddresses(iov: seq<Iovec>, a: nat)
    ensures a in Addresses(iov, 512) <==> exists i :: 0 <= i < |iov| && iov[i].base <= a < iov[i].base + iov[i].len * 512
  {
    if iov != [] {
      var span, tail := Span(iov[0].base, iov[0].len * 512), Addresses(iov[1..], 512);
      InAddresses(iov[1..], a);
      InSpan(iov[0].base, iov[0].len * 512, a);
      if a in tail {
        var i :| 0 <= i < |iov[1..]| && iov[1..][i].base <= a < iov[1..][i].base + iov[1..][i].len * 512;
        assert iov[i + 1] == iov[1..][i];
      }
      if exists i :: 0 < i < |iov| && iov[i].base <= a < iov[i].base + iov[i].len * 512 {
        var i :| 0 < i < |iov| && iov[i].base <= a < iov[i].base + iov[i].len * 512;
        assert iov[1..][i - 1] == iov[i];
      }
    }
  }

  lemma InSpan(base: nat, n: nat, a: nat)
    ensures a in Span(base, n) <==> base <= a < base + n
  {
    if base <= a < base + n {
      assert Span(base, n)[a - base] == a;
    }
  }

  lemma DistinctJoin(s: seq<nat>, t: seq<nat>)
    ensures Distinct(s + t) <==> Distinct(s) && Distinct(t) && forall a :: a in s ==> a !in t
  {
    var st := s + t;
    if Distinct(st) {
      assert forall i :: 0 <= i < |s| ==> st[i] == s[i];
      assert forall i :: 0 <= i < |t| ==> st[|s| + i] == t[i];
      forall i, j | 0 <= i < |s| && 0 <= j < |t|
        ensures s[i] != t[j]
      {
        assert st[i] != st[|s| + j];
      }
    }
    if Distinct(s) && Distinct(t) && forall a :: a in s ==> a !in t {
      forall i, j | 0 <= i < j < |st|
        ensures st[i] != st[j]
      {
        if i < |s| <= j {
          assert s[i] in s && t[j - |s|] in t;
        }
      }
    }
  }

  /** No address repeats in a vector exactly if its buffers are pairwise disjoint. */
  lemma {:induction false} DistinctExactly(iov: seq<Iovec>)
    ensures Distinct(Addresses(iov, 512)) <==> forall i, j :: 0 <= i < j < |iov| ==> Apart(iov[i], iov[j])
  {
    if iov != [] {
      var first, tail := iov[0], iov[1..];
      DistinctExactly(tail);
      DistinctJoin(Span(first.base, first.len * 512), Addresses(tail, 512));
      FirstApart(first, tail);
      assert iov == [first] + tail;
    }
  }

  lemma FirstApart(first: Iovec, tail: seq<Iovec>)
    ensures (forall a :: a in Span(first.base, first.len * 512) ==> a !in Addresses(tail, 512))
       <==> forall j :: 0 <= j < |tail| ==> Apart(first, tail[j])
  {
    hide Addresses;
    forall a
      ensures a in Addresses(tail, 512)
         <==> exists i :: 0 <= i < |tail| && tail[i].base <= a < tail[i].base + tail[i].len * 512
    {
      if a >= 0 {
        InAddresses(tail, a);
      }
    }
    forall j | 0 <= j < |tail| && !Apart(first, tail[j])
      ensures exists a :: a in Span(first.base, first.len * 512) && a in Addresses(tail, 512)
    {
      var a := if first.base < tail[j].base then tail[j].base else first.base;
      InSpan(first.base, first.len * 512, a);
    }
    forall a | a in Span(first.base, first.len * 512) && a in Addresses(tail, 512)
      ensures exists j :: 0 <= j < |tail| && !Apart(first, tail[j])
    {
      InSpan(first.base, first.len * 512, a);
    }
  }

  // ---------------------------------------------------------------------------------------------
  // Conversion under a page budget
  // ---------------------------------------------------------------------------------------------

  /** The vector built by a conversion, its size in bytes, and the pages charged for it. */
  datatype Conversion = Conversion(out: seq<Iovec>, bytes: nat, pages: nat)

  /** The page budget that follows from the largest transfer of the device. */
  function PageBudget(maxSectors: nat, page: PageSize): nat {
    U32(U64(maxSectors * 512) / page)
  }

  predicate Misaligned(address: nat, page: PageSize) {
    And(address, page - 1) != 0
  }

  /** The pages charged for `length` bytes at `address`, in 32 bits. */
  function PageCharge(address: nat, length: nat, page: PageSize): nat {
    var np := U32(CeilDiv(length, page));
    if Misaligned(address, page) then U32(np + 1) else np
  }

  /** The bytes that `np` pages are trusted to hold from `address`. */
  function PageRoom(address: nat, np: nat, page: PageSize): nat
    requires np > 0
  {
    (if Misaligned(address, page) then np - 1 else np) * page
  }

  /** The length given to one entry, and the pages spent once it is added. */
  datatype Piece = Piece(length: nat, spent: nat)

  /** An entry that overruns the budget is cut to the room of the pages that are left. */
  function Cut(base: nat, wanted: nat, pages: nat, budget: nat, page: PageSize): Piece
    requires pages < budget
  {
    var charged := U32(pages + PageCharge(base, wanted, page));
    if charged <= budget then Piece(wanted, charged)
    else Piece(Min(wanted, PageRoom(base, budget - pages, page)), U32(budget))
  }

  /**
   * What the conversion loop still appends when it stands at the front of `iov`, with `offset`
   * bytes to skip, `left` bytes wanted and `pages` of the budget spent.
   */
  function Convert(iov: seq<Iovec>, offset: nat, left: nat, pages: nat, budget: nat, page: PageSize): Conversion {
    if iov == [] || left == 0 || pages >= budget then Conversion([], 0, pages)
    else
      var whole := iov[0].len * 512;
      if offset >= whole then Convert(iov[1..], offset - whole, left, pages, budget, page)
      else
        var base := iov[0].base + offset;
        var piece := Cut(base, Min(whole - offset, left), pages, budget, page);
        var rest := Convert(iov[1..], 0, left - piece.length, piece.spent, budget, page);
        Conversion([Iovec(base, piece.length)] + rest.out, piece.length + rest.bytes, rest.pages)
  }

  /** The whole conversion of a request: `sectors` sectors from `sectorOffset` sectors on. */
  function ConvertRequest(iov: seq<Iovec>, sectorOffset: nat, sectors: nat, maxSectors: nat, page: PageSize)
    : Conversion
  {
    Convert(iov, sectorOffset * 512, sectors * 512, 0, PageBudget(maxSectors, page), page)
  }

  /** The budget check of one entry: the length it may have, and the pages then spent. */
  method FitEntry(base: nat, wanted: nat, pages: nat, budget: nat, page: PageSize)
    returns (length: nat, spent: nat)
    requires pages < budget
    ensures Cut(base, wanted, pages, budget, page) == Piece(length, spent)
  {
    length := wanted;
    var np := PageCharge(base, length, page);
    if U32(pages + np) > budget {
      np := budget - pages;
      var room := PageRoom(base, np, page);
      if length > room {
        length := room;
      }
    }
    spent := U32(pages + np);
  }

  lemma Regroup<T>(front: seq<T>, x: T, back: seq<T>)
    ensures front + ([x] + back) == front + [x] + back
  {
  }

  lemma ConvertStops(iov: seq<Iovec>, i: nat, offset: nat, left: nat, pages: nat, budget: nat, page: PageSize)
    requires i <= |iov| && (i == |iov| || left == 0 || pages >= budget)
    ensures Convert(iov[i..], offset, left, pages, budget, page) == Conversion([], 0, pages)
  {
  }

  lemma ConvertSkips(iov: seq<Iovec>, i: nat, offset: nat, left: nat, pages: nat, budget: nat, page: PageSize)
    requires i < |iov| && left > 0 && pages < budget && offset >= iov[i].len * 512
    ensures Convert(iov[i..], offset, left, pages, budget, page)
         == Convert(iov[i + 1..], offset - iov[i].len * 512, left, pages, budget, page)
  {
    assert iov[i..][1..] == iov[i + 1..];
  }

  lemma ConvertTakes(iov: seq<Iovec>, i: nat, offset: nat, left: nat, pages: nat, budget: nat, page: PageSize)
    requires i < |iov| && left > 0 && pages < budget && offset < iov[i].len * 512
    ensures var base := iov[i].base + offset;
            var piece := Cut(base, Min(iov[i].len * 512 - offset, left), pages, budget, page);
            && piece.length <= left
            && var rest := Convert(iov[i + 1..], 0, left - piece.length, piece.spent, budget, page);
            Convert(iov[i..], offset, left, pages, budget, page)
              == Conversion([Iovec(base, piece.length)] + rest.out, piece.length + rest.bytes, rest.pages)
  {
    assert iov[i..][1..] == iov[i + 1..];
  }

  /** The loop of the library, which fills `target` in place. */
  method ConvertInPlace(target: array<Iovec>, iov: seq<Iovec>, sectorOffset: nat, sectors: nat,
                        maxSectors: nat, page: PageSize)
    returns (entries: nat, converted: nat)
    requires target.Length >= |iov|
    modifies target
    ensures entries <= |iov|
    ensures var c := ConvertRequest(iov, sectorOffset, sectors, maxSectors, page);
            target[..entries] == c.out && converted == c.bytes / 512
  {
    hide Convert, Cut, PageBudget;
    var budget := PageBudget(maxSectors, page);
    var size: nat, offset: nat := sectors * 512, sectorOffset * 512;
    var count: nat, pages: nat, i: nat, j: nat := 0, 0, 0, 0;
    ghost var c := ConvertRequest(iov, sectorOffset, sectors, maxSectors, page);
    while i < |iov| && count < size && pages < budget
      invariant j <= i <= |iov| && count <= size
      invariant var rest := Convert(iov[i..], offset, size - count, pages, budget, page);
                c == Conversion(target[..j] + rest.out, count + rest.bytes, rest.pages)
    {
      ghost var before, left, spent, skip := target[..j], size - count, pages, offset;
      var length := iov[i].len * 512;
      if offset >= length {
        ConvertSkips(iov, i, offset, left, pages, budget, page);
        offset := offset - length;
        i := i + 1;
        continue;
      }
      var base := iov[i].base + offset;
      length := length - offset;
      offset := 0;
      if count + length > size {
        length := size - count;
      }
      var fitted, charged := FitEntry(base, length, pages, budget, page);
      length, pages := fitted, charged;
      ConvertTakes(iov, i, skip, left, spent, budget, page);
      target[j] := Iovec(base, length);
      count := count + length;
      j := j + 1;
      i := i + 1;
      assert target[..j] == before + [Iovec(base, length)];
      Regroup(before, Iovec(base, length), Convert(iov[i..], 0, size - count, pages, budget, page).out);
    }
    ConvertStops(iov, i, offset, size - count, pages, budget, page);
    entries, converted := j, count / 512;
    assert target[..j] + [] == target[..j];
  }
}
