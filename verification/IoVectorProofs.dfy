/** What a conversion of lib/zbc.c means: it slices, it respects the page budget, it makes progress. */
module IoVectorProofs {
  import opened Bits
  import opened IoVector

  // ---------------------------------------------------------------------------------------------
  // Slicing
  // ---------------------------------------------------------------------------------------------

  lemma CutLength(base: nat, wanted: nat, pages: nat, budget: nat, page: PageSize)
    requires pages < budget < 0x1_0000_0000
    ensures var piece := Cut(base, wanted, pages, budget, page);
            && piece.length <= wanted
            && (wanted % 512 == 0 ==> piece.length % 512 == 0)
            && (piece.length < wanted ==> piece.spent == budget)
            && piece.spent <= budget
  {
    hide PageCharge, Misaligned;
    var np := budget - pages;
    var n := if Misaligned(base, page) then np - 1 else np;
    SectorMultiple(n, page);
  }

  lemma SectorMultiple(n: nat, page: PageSize)
    ensures n * page >= 0 && n * page % 512 == 0
  {
    assert n * page == (n * (page / 512)) * 512;
  }

  /** `c` covers exactly the bytes from `offset` on, in whole sectors and never more than `left`. */
  predicate IsSlice(c: Conversion, iov: seq<Iovec>, offset: nat, left: nat) {
    && c.bytes <= left && c.bytes % 512 == 0
    && offset + c.bytes <= |Addresses(iov, 512)|
    && Addresses(c.out, 1) == Addresses(iov, 512)[offset..offset + c.bytes]
  }

  /** Slicing: a conversion keeps the bytes of the request, in order, up to where it stops. */
  lemma {:induction false} ConvertSlices(iov: seq<Iovec>, offset: nat, left: nat, pages: nat, budget: nat, page: PageSize)
    requires offset % 512 == 0 && left % 512 == 0 && budget < 0x1_0000_0000
    requires offset <= |Addresses(iov, 512)|
    ensures IsSlice(Convert(iov, offset, left, pages, budget, page), iov, offset, left)
  {
    hide Cut, Addresses, Convert, IsSlice;
    AddressesSplit(iov);
    if iov == [] || left == 0 || pages >= budget {
      ConvertStops(iov, 0, offset, left, pages, budget, page);
      SliceStops(iov, offset, left, pages);
    } else if offset >= iov[0].len * 512 {
      ConvertSkips(iov, 0, offset, left, pages, budget, page);
      ConvertSlices(iov[1..], offset - iov[0].len * 512, left, pages, budget, page);
      SliceSkips(Convert(iov, offset, left, pages, budget, page), iov, offset, left);
    } else {
      var piece, rest := ConvertParts(iov, offset, left, pages, budget, page);
      ConvertSlices(iov[1..], 0, left - piece.length, piece.spent, budget, page);
      SliceTakes(iov, offset, left, piece.length, rest);
    }
  }

  /** The piece cut from the first buffer, and the conversion of the others. */
  lemma ConvertParts(iov: seq<Iovec>, offset: nat, left: nat, pages: nat, budget: nat, page: PageSize)
    returns (piece: Piece, rest: Conversion)
    requires iov != [] && offset < iov[0].len * 512 && 0 < left && pages < budget < 0x1_0000_0000
    ensures piece.length <= left && offset + piece.length <= iov[0].len * 512
    ensures offset % 512 == 0 && left % 512 == 0 ==> piece.length % 512 == 0
    ensures piece == Cut(iov[0].base + offset, Min(iov[0].len * 512 - offset, left), pages, budget, page)
    ensures rest == Convert(iov[1..], 0, left - piece.length, piece.spent, budget, page)
    ensures offset + piece.length < iov[0].len * 512 ==> rest.bytes == 0
    ensures Convert(iov, offset, left, pages, budget, page)
         == Conversion([Iovec(iov[0].base + offset, piece.length)] + rest.out, piece.length + rest.bytes, rest.pages)
  {
    hide Cut;
    var wanted := Min(iov[0].len * 512 - offset, left);
    CutLength(iov[0].base + offset, wanted, pages, budget, page);
    piece := Cut(iov[0].base + offset, wanted, pages, budget, page);
    rest := Convert(iov[1..], 0, left - piece.length, piece.spent, budget, page);
  }

  lemma AddressesSplit(iov: seq<Iovec>)
    ensures Addresses([], 1) == []
    ensures iov == [] ==> Addresses(iov, 512) == []
    ensures iov != [] ==> Addresses(iov, 512) == Span(iov[0].base, iov[0].len * 512) + Addresses(iov[1..], 512)
    ensures iov[0..] == iov
  {
  }

  lemma SliceStops(iov: seq<Iovec>, offset: nat, left: nat, pages: nat)
    requires offset <= |Addresses(iov, 512)|
    ensures IsSlice(Conversion([], 0, pages), iov, offset, left)
  {
  }

  lemma SliceSkips(c: Conversion, iov: seq<Iovec>, offset: nat, left: nat)
    requires iov != [] && iov[0].len * 512 <= offset
    requires IsSlice(c, iov[1..], offset - iov[0].len * 512, left)
    ensures IsSlice(c, iov, offset, left)
  {
    var whole, tail := iov[0].len * 512, Addresses(iov[1..], 512);
    assert Addresses(iov, 512) == Span(iov[0].base, whole) + tail;
  }

  lemma SliceTakes(iov: seq<Iovec>, offset: nat, left: nat, length: nat, rest: Conversion)
    requires iov != [] && offset + length <= iov[0].len * 512 && length <= left && length % 512 == 0
    requires IsSlice(rest, iov[1..], 0, left - length)
    requires offset + length < iov[0].len * 512 ==> rest.bytes == 0
    ensures IsSlice(Conversion([Iovec(iov[0].base + offset, length)] + rest.out, length + rest.bytes, rest.pages),
                    iov, offset, left)
  {
    var out := [Iovec(iov[0].base + offset, length)] + rest.out;
    assert out[1..] == rest.out;
    assert Addresses(out, 1) == Span(iov[0].base + offset, length) + Addresses(rest.out, 1);
    SliceJoins(iov[0].base, iov[0].len * 512, Addresses(iov[1..], 512), offset, length, rest.bytes);
  }

  lemma SliceJoins(base: nat, whole: nat, tail: seq<nat>, offset: nat, length: nat, more: nat)
    requires offset + length <= whole && more <= |tail|
    requires length < whole - offset ==> more == 0
    ensures Span(base + offset, length) + tail[0..more]
         == (Span(base, whole) + tail)[offset..offset + length + more]
  {
  }

  /** Each entry lies in a buffer of its own, in the order of the buffers: `source` names them. */
  lemma ConvertKeepsOrder(iov: seq<Iovec>, offset: nat, left: nat, pages: nat, budget: nat, page: PageSize)
    returns (source: seq<nat>)
    requires budget < 0x1_0000_0000
    ensures var out := Convert(iov, offset, left, pages, budget, page).out;
            && |source| == |out| <= |iov|
            && (forall i, j :: 0 <= i < j < |source| ==> source[i] < source[j])
            && (forall k :: 0 <= k < |out| ==> source[k] < |iov|)
            && forall k :: 0 <= k < |out| ==>
                 && iov[source[k]].base <= out[k].base
                 && out[k].base + out[k].len <= iov[source[k]].base + iov[source[k]].len * 512
  {
    hide Convert;
    source := SourcesOf(iov, offset, left, pages, budget, page);
  }

  predicate Sources(source: seq<nat>, out: seq<Iovec>, iov: seq<Iovec>) {
    && |source| == |out| <= |iov|
    && (forall i, j :: 0 <= i < j < |source| ==> source[i] < source[j])
    && (forall k :: 0 <= k < |out| ==> source[k] < |iov|)
    && forall k :: 0 <= k < |out| ==>
         && iov[source[k]].base <= out[k].base
         && out[k].base + out[k].len <= iov[source[k]].base + iov[source[k]].len * 512
  }

  lemma {:induction false} SourcesOf(iov: seq<Iovec>, offset: nat, left: nat, pages: nat, budget: nat, page: PageSize)
    returns (source: seq<nat>)
    requires budget < 0x1_0000_0000
    ensures Sources(source, Convert(iov, offset, left, pages, budget, page).out, iov)
  {
    hide Cut, Sources, Convert;
    AddressesSplit(iov);
    if iov == [] || left == 0 || pages >= budget {
      ConvertStops(iov, 0, offset, left, pages, budget, page);
      source := [];
      NoSources(iov);
    } else if offset >= iov[0].len * 512 {
      ConvertSkips(iov, 0, offset, left, pages, budget, page);
      var rest := SourcesOf(iov[1..], offset - iov[0].len * 512, left, pages, budget, page);
      source := Following(rest);
      SourcesSkip(rest, Convert(iov, offset, left, pages, budget, page).out, iov);
    } else {
      var piece, more := ConvertParts(iov, offset, left, pages, budget, page);
      var rest := SourcesOf(iov[1..], 0, left - piece.length, piece.spent, budget, page);
      source := [0] + Following(rest);
      SourcesSkip(rest, more.out, iov);
      SourcesTake(Following(rest), more.out, iov, Iovec(iov[0].base + offset, piece.length));
    }
  }

  lemma NoSources(iov: seq<Iovec>)
    ensures Sources([], [], iov)
  {
  }

  lemma SourcesSkip(source: seq<nat>, out: seq<Iovec>, iov: seq<Iovec>)
    requires iov != [] && Sources(source, out, iov[1..])
    ensures Sources(Following(source), out, iov) && |out| < |iov|
    ensures forall k :: 0 <= k < |source| ==> Following(source)[k] > 0
  {
    SourcesShift(iov, source);
  }

  lemma SourcesTake(source: seq<nat>, out: seq<Iovec>, iov: seq<Iovec>, e: Iovec)
    requires iov != [] && Sources(source, out, iov) && |out| < |iov| && forall k :: 0 <= k < |source| ==> source[k] > 0
    requires iov[0].base <= e.base && e.base + e.len <= iov[0].base + iov[0].len * 512
    ensures Sources([0] + source, [e] + out, iov)
  {
  }

  function Following(source: seq<nat>): (next: seq<nat>)
    ensures |next| == |source| && forall k :: 0 <= k < |next| ==> next[k] == source[k] + 1
  {
    seq(|source|, k requires 0 <= k < |source| => source[k] + 1)
  }

  lemma SourcesShift(iov: seq<Iovec>, source: seq<nat>)
    requires iov != [] && forall k :: 0 <= k < |source| ==> source[k] < |iov| - 1
    ensures forall k :: 0 <= k < |source| ==> iov[1..][source[k]] == iov[Following(source)[k]]
  {
  }

  // ---------------------------------------------------------------------------------------------
  // The page budget
  // ---------------------------------------------------------------------------------------------

  /** The memory pages that hold at least one byte of a converted entry. */
  function PagesTouched(e: Iovec, page: PageSize): nat {
    if e.len == 0 then 0
    else
      QuotientMonotone(e.base, e.base + e.len - 1, page);
      (e.base + e.len - 1) / page - e.base / page + 1
  }

  function TotalPagesTouched(out: seq<Iovec>, page: PageSize): nat {
    if out == [] then 0 else PagesTouched(out[0], page) + TotalPagesTouched(out[1..], page)
  }

  /** The pages that `length` bytes at `address` need when nothing wraps. */
  function PagesNeeded(address: nat, length: nat, page: PageSize): nat {
    CeilDiv(length, page) + (if address % page == 0 then 0 else 1)
  }

  /**
   * The pages needed by the buffers up to the first with which they exceed the budget, when nothing
   * wraps: `pages` for those before, and all of each that follows.
   */
  function Peak(iov: seq<Iovec>, offset: nat, left: nat, pages: nat, budget: nat, page: PageSize): nat {
    if iov == [] || left == 0 || pages >= budget then pages
    else
      var whole := iov[0].len * 512;
      if offset >= whole then Peak(iov[1..], offset - whole, left, pages, budget, page)
      else
        var wanted := Min(whole - offset, left);
        Peak(iov[1..], 0, left - wanted, pages + PagesNeeded(iov[0].base + offset, wanted, page), budget, page)
  }

  /** The 32-bit page count does not wrap below the budget at the buffer that exceeds it. */
  predicate CountDetects(peak: nat, budget: nat) {
    peak < 0x1_0000_0000 || U32(peak) > budget
  }

  /** The pages touched are those that hold a byte of the entry. */
  lemma PagesTouchedExactly(e: Iovec, page: PageSize, p: nat)
    ensures e.base / page <= p < e.base / page + PagesTouched(e, page)
       <==> exists a: nat :: e.base <= a < e.base + e.len && a / page == p
  {
    var q, r := Quotient(e.base, page);
    if e.len > 0 {
      var last := e.base + e.len - 1;
      if q <= p <= last / page {
        var a := if p == q then e.base else p * page;
        var z, y := Quotient(last, page);
        if p > q {
          MulMonotone(q + 1, p, page);
          assert (q + 1) * page == q * page + page;
          MulMonotone(p, z, page);
          DivModUnique(a, page, p, 0);
        }
        assert e.base <= a < e.base + e.len && a / page == p;
      }
      forall a: nat | e.base <= a < e.base + e.len
        ensures q <= a / page <= last / page
      {
        QuotientMonotone(e.base, a, page);
        QuotientMonotone(a, last, page);
      }
    }
  }

  /** Page counts of requests of `left` bytes stay below 2^32, whatever the buffers. */
  predicate NoPageOverflow(left: nat, budget: nat, page: PageSize) {
    left / page + budget + 2 < 0x1_0000_0000
  }

  lemma ChargeIsNeed(address: nat, length: nat, page: PageSize)
    ensures Misaligned(address, page) <==> address % page != 0
    ensures PageCharge(address, length, page) == U32(PagesNeeded(address, length, page))
  {
    AndMask(address, page);
    WrapNext(CeilDiv(length, page));
  }

  lemma WrapNext(x: nat)
    ensures U32(U32(x) + 1) == U32(x + 1)
  {
  }

  lemma NeedWithin(address: nat, length: nat, left: nat, page: PageSize)
    requires length <= left
    ensures PagesNeeded(address, length, page) <= left / page + 2
  {
    var q, r := Quotient(left, page);
    assert length + (page - 1) < (q + 2) * page;
    QuotientLess(length + (page - 1), page, q + 2);
  }

  lemma TouchedWithinNeed(e: Iovec, page: PageSize)
    ensures PagesTouched(e, page) <= PagesNeeded(e.base, e.len, page)
  {
    if e.len > 0 {
      var q, r := Quotient(e.base, page);
      CeilDivBounds(e.len, page);
      EndWithin(e.base, e.len, q, r, CeilDiv(e.len, page), page);
    }
  }

  lemma EndWithin(base: nat, length: nat, q: nat, r: nat, c: nat, page: PageSize)
    requires base == q * page + r && r < page && 0 < length <= c * page
    ensures (base + length - 1) / page < q + c + if r == 0 then 0 else 1
  {
    var k := if r == 0 then q + c else q + c + 1;
    assert k * page == (q * page + c * page) + (if r == 0 then 0 else page);
    QuotientLess(base + length - 1, page, k);
  }

  lemma TouchedHoldsBytes(e: Iovec, page: PageSize)
    ensures e.len <= PagesTouched(e, page) * page
  {
    if e.len > 0 {
      var q, r := Quotient(e.base, page);
      var last, s := Quotient(e.base + e.len - 1, page);
      QuotientMonotone(e.base, e.base + e.len - 1, page);
      assert (last - q + 1) * page == last * page - q * page + page;
    }
  }

  /** What `length` bytes need, in terms of the pages that are enough for them. */
  lemma NeedExactly(address: nat, length: nat, page: PageSize, n: nat)
    ensures PagesNeeded(address, length, page) <= n
       <==> if address % page == 0 then length <= n * page else n > 0 && length <= (n - 1) * page
  {
    var k: nat := if address % page == 0 then n else if n > 0 then n - 1 else 0;
    CeilDivAtMost(length, page, k);
  }

  lemma CeilDivAtMost(x: nat, n: nat, k: nat)
    requires n > 0
    ensures CeilDiv(x, n) <= k <==> x <= k * n
  {
    assert (k + 1) * n == k * n + n;
    QuotientLess(x + (n - 1), n, k + 1);
  }

  /**
   * An entry is taken whole if its 32-bit count fits the budget, and spends that; or else it is the longest
   * part that the pages that are left are enough for, and spends the budget.
   */
  lemma CutExactly(base: nat, wanted: nat, pages: nat, budget: nat, page: PageSize, length: nat)
    requires pages < budget < 0x1_0000_0000 && length <= wanted
    ensures var piece, charged := Cut(base, wanted, pages, budget, page), U32(pages + PagesNeeded(base, wanted, page));
            if charged <= budget then piece == Piece(wanted, charged)
            else
              && piece.spent == budget
              && (length <= piece.length <==> length == 0 || pages + PagesNeeded(base, length, page) <= budget)
  {
    hide Cut, PagesNeeded, PageRoom;
    CutByNeed(base, wanted, pages, budget, page);
    NeedExactly(base, length, page, budget - pages);
    RoomExactly(base, budget - pages, page);
  }

  lemma RoomExactly(base: nat, np: nat, page: PageSize)
    requires np > 0
    ensures PageRoom(base, np, page) == if base % page == 0 then np * page else (np - 1) * page
  {
    AndMask(base, page);
  }

  /** The budget check of one entry, by the pages that it would need in full. */
  lemma CutByNeed(base: nat, wanted: nat, pages: nat, budget: nat, page: PageSize)
    requires pages < budget < 0x1_0000_0000
    ensures var charged := U32(pages + PagesNeeded(base, wanted, page));
            Cut(base, wanted, pages, budget, page)
              == if charged <= budget then Piece(wanted, charged)
                 else Piece(Min(wanted, PageRoom(base, budget - pages, page)), budget)
  {
    hide PagesNeeded, PageCharge, PageRoom, U32;
    ChargeIsNeed(base, wanted, page);
    WrapSum(pages, PagesNeeded(base, wanted, page));
    WordFits(budget);
  }

  lemma WordFits(x: nat)
    requires x < 0x1_0000_0000
    ensures U32(x) == x
  {
  }

  lemma WrapSum(x: nat, y: nat)
    ensures U32(x + U32(y)) == U32(x + y)
  {
  }

  /** An entry that would exceed the budget, and is seen to, is cut to the pages that are left. */
  lemma CutKeepsBudget(base: nat, wanted: nat, pages: nat, budget: nat, page: PageSize)
    requires pages < budget < 0x1_0000_0000 && U32(pages + PagesNeeded(base, wanted, page)) > budget
    ensures var piece := Cut(base, wanted, pages, budget, page);
            pages + PagesTouched(Iovec(base, piece.length), page) <= piece.spent == budget
  {
    hide Cut, PagesNeeded, PageRoom, PagesTouched;
    CutByNeed(base, wanted, pages, budget, page);
    var piece := Cut(base, wanted, pages, budget, page);
    TouchedWithinNeed(Iovec(base, piece.length), page);
    RoomNeeds(base, piece.length, budget - pages, page);
  }

  lemma RoomNeeds(base: nat, length: nat, np: nat, page: PageSize)
    requires np > 0 && length <= PageRoom(base, np, page)
    ensures PagesNeeded(base, length, page) <= np
  {
    ChargeIsNeed(base, length, page);
    var k := if Misaligned(base, page) then np - 1 else np;
    assert (k + 1) * page == k * page + page;
    QuotientLess(length + (page - 1), page, k + 1);
  }

  lemma PeakStops(iov: seq<Iovec>, offset: nat, left: nat, pages: nat, budget: nat, page: PageSize)
    requires iov == [] || left == 0 || pages >= budget
    ensures Peak(iov, offset, left, pages, budget, page) == pages
    ensures Convert(iov, offset, left, pages, budget, page) == Conversion([], 0, pages) && TotalPagesTouched([], page) == 0
  {
  }

  lemma PeakSkips(iov: seq<Iovec>, offset: nat, left: nat, pages: nat, budget: nat, page: PageSize)
    requires iov != [] && left > 0 && pages < budget && offset >= iov[0].len * 512
    ensures var o := offset - iov[0].len * 512;
            && Peak(iov, offset, left, pages, budget, page) == Peak(iov[1..], o, left, pages, budget, page)
            && Convert(iov, offset, left, pages, budget, page) == Convert(iov[1..], o, left, pages, budget, page)
  {
    hide Cut, PagesNeeded;
  }

  /** The first buffer of a conversion: what it needs in full, what is cut from it, and the pages touched. */
  lemma PeakTakes(iov: seq<Iovec>, offset: nat, left: nat, pages: nat, budget: nat, page: PageSize)
    returns (base: nat, wanted: nat, need: nat, piece: Piece, rest: Conversion)
    requires iov != [] && left > 0 && pages < budget < 0x1_0000_0000 && offset < iov[0].len * 512
    ensures base == iov[0].base + offset && wanted == Min(iov[0].len * 512 - offset, left) > 0
    ensures need == pages + PagesNeeded(base, wanted, page)
    ensures piece == Cut(base, wanted, pages, budget, page) && piece.length <= wanted
    ensures U32(need) <= budget ==> piece == Piece(wanted, U32(need))
    ensures rest == Convert(iov[1..], 0, left - piece.length, piece.spent, budget, page)
    ensures Peak(iov, offset, left, pages, budget, page) == Peak(iov[1..], 0, left - wanted, need, budget, page)
    ensures var c := Convert(iov, offset, left, pages, budget, page);
            && c.pages == rest.pages && c.bytes == piece.length + rest.bytes
            && TotalPagesTouched(c.out, page) == PagesTouched(Iovec(base, piece.length), page) + TotalPagesTouched(rest.out, page)
  {
    hide Cut, PagesTouched, PagesNeeded;
    base, wanted := iov[0].base + offset, Min(iov[0].len * 512 - offset, left);
    need := pages + PagesNeeded(base, wanted, page);
    piece, rest := ConvertParts(iov, offset, left, pages, budget, page);
    CutLength(base, wanted, pages, budget, page);
    CutByNeed(base, wanted, pages, budget, page);
    assert ([Iovec(base, piece.length)] + rest.out)[1..] == rest.out;
  }

  /** Where the page count detects the peak, the pages really touched are charged, and fit the budget. */
  lemma {:induction false} ConvertKeepsBudget(iov: seq<Iovec>, offset: nat, left: nat, pages: nat, budget: nat,
                                              page: PageSize)
    requires pages <= budget < 0x1_0000_0000
    requires CountDetects(Peak(iov, offset, left, pages, budget, page), budget)
    ensures var c := Convert(iov, offset, left, pages, budget, page);
            pages + TotalPagesTouched(c.out, page) <= c.pages <= budget
  {
    hide Cut, PagesTouched, PagesNeeded, Peak, Convert, TotalPagesTouched;
    if iov == [] || left == 0 || pages >= budget {
      PeakStops(iov, offset, left, pages, budget, page);
    } else if offset >= iov[0].len * 512 {
      PeakSkips(iov, offset, left, pages, budget, page);
      ConvertKeepsBudget(iov[1..], offset - iov[0].len * 512, left, pages, budget, page);
    } else {
      var base, wanted, need, piece, rest := PeakTakes(iov, offset, left, pages, budget, page);
      if need <= budget {
        TouchedWithinNeed(Iovec(base, wanted), page);
        ConvertKeepsBudget(iov[1..], 0, left - wanted, need, budget, page);
      } else {
        PeakStops(iov[1..], 0, left - wanted, need, budget, page);
        CutKeepsBudget(base, wanted, pages, budget, page);
        PeakStops(iov[1..], 0, left - piece.length, piece.spent, budget, page);
      }
    }
  }

  /** Where it does not, all the buffers up to the peak are taken in full. */
  lemma {:induction false} ConvertOverruns(iov: seq<Iovec>, offset: nat, left: nat, pages: nat, budget: nat,
                                           page: PageSize)
    requires pages <= budget < 0x1_0000_0000
    requires !CountDetects(Peak(iov, offset, left, pages, budget, page), budget)
    ensures var c := Convert(iov, offset, left, pages, budget, page);
            Peak(iov, offset, left, pages, budget, page) <= pages + TotalPagesTouched(c.out, page) + |iov|
  {
    hide Cut, PagesTouched, PagesNeeded, Peak, Convert, TotalPagesTouched;
    if iov == [] || left == 0 || pages >= budget {
      PeakStops(iov, offset, left, pages, budget, page);
    } else if offset >= iov[0].len * 512 {
      PeakSkips(iov, offset, left, pages, budget, page);
      ConvertOverruns(iov[1..], offset - iov[0].len * 512, left, pages, budget, page);
    } else {
      var base, wanted, need, piece, rest := PeakTakes(iov, offset, left, pages, budget, page);
      NeedWithinTouched(Iovec(base, wanted), page);
      if need <= budget {
        ConvertOverruns(iov[1..], 0, left - wanted, need, budget, page);
      } else {
        PeakStops(iov[1..], 0, left - wanted, need, budget, page);
      }
    }
  }

  /**
   * Exactly when the pages touched by a converted vector, counted from its real addresses, fit the
   * budget: unless the buffers up to the first excess need 2^32 pages or more and their 32-bit count
   * happens to fit.
   */
  lemma BudgetExactly(iov: seq<Iovec>, offset: nat, left: nat, budget: nat, page: PageSize)
    requires budget + |iov| < 0x1_0000_0000
    ensures TotalPagesTouched(Convert(iov, offset, left, 0, budget, page).out, page) <= budget
       <==> CountDetects(Peak(iov, offset, left, 0, budget, page), budget)
  {
    hide Convert, Peak, TotalPagesTouched;
    if CountDetects(Peak(iov, offset, left, 0, budget, page), budget) {
      ConvertKeepsBudget(iov, offset, left, 0, budget, page);
    } else {
      ConvertOverruns(iov, offset, left, 0, budget, page);
    }
  }

  /** In particular it fits for every request of less than 2^32 pages, less the budget. */
  lemma {:induction false} PeakBound(iov: seq<Iovec>, offset: nat, left: nat, pages: nat, budget: nat, page: PageSize)
    requires pages <= budget
    ensures Peak(iov, offset, left, pages, budget, page) <= budget + left / page + 2
  {
    hide PagesNeeded;
    QuotientMonotone(0, left, page);
    if iov != [] && left > 0 && pages < budget {
      if offset >= iov[0].len * 512 {
        PeakBound(iov[1..], offset - iov[0].len * 512, left, pages, budget, page);
      } else {
        var wanted := Min(iov[0].len * 512 - offset, left);
        var need := pages + PagesNeeded(iov[0].base + offset, wanted, page);
        NeedWithin(iov[0].base + offset, wanted, left, page);
        QuotientMonotone(left - wanted, left, page);
        if need <= budget {
          PeakBound(iov[1..], 0, left - wanted, need, budget, page);
        }
      }
    }
  }

  lemma {:induction false} BytesWithinPages(out: seq<Iovec>, page: PageSize)
    ensures TotalLength(out) <= TotalPagesTouched(out, page) * page
  {
    hide PagesTouched;
    if out != [] {
      hide PagesTouched;
      BytesWithinPages(out[1..], page);
      TouchedHoldsBytes(out[0], page);
      var a, b := PagesTouched(out[0], page), TotalPagesTouched(out[1..], page);
      assert (a + b) * page == a * page + b * page;
    }
  }

  lemma {:induction false} ConvertLength(iov: seq<Iovec>, offset: nat, left: nat, pages: nat, budget: nat, page: PageSize)
    requires budget < 0x1_0000_0000
    ensures var c := Convert(iov, offset, left, pages, budget, page);
            c.bytes == TotalLength(c.out)
  {
    hide Cut;
    if iov != [] && left > 0 && pages < budget {
      if offset >= iov[0].len * 512 {
        ConvertLength(iov[1..], offset - iov[0].len * 512, left, pages, budget, page);
      } else {
        var piece, rest := ConvertParts(iov, offset, left, pages, budget, page);
        ConvertLength(iov[1..], 0, left - piece.length, piece.spent, budget, page);
        assert ([Iovec(iov[0].base + offset, piece.length)] + rest.out)[1..] == rest.out;
      }
    }
  }

  /** A converted vector within the page budget never moves more sectors than the device accepts. */
  lemma CommandWithinDeviceLimit(iov: seq<Iovec>, sectorOffset: nat, sectors: nat, maxSectors: nat, page: PageSize)
    requires PageBudget(maxSectors, page) + |iov| < 0x1_0000_0000
    ensures var c, budget := ConvertRequest(iov, sectorOffset, sectors, maxSectors, page), PageBudget(maxSectors, page);
            && (TotalPagesTouched(c.out, page) <= budget <==>
                  CountDetects(Peak(iov, sectorOffset * 512, sectors * 512, 0, budget, page), budget))
            && (TotalPagesTouched(c.out, page) <= budget ==> TotalLength(c.out) <= maxSectors * 512)
  {
    hide PageBudget, Peak, TotalPagesTouched, Convert;
    var budget := PageBudget(maxSectors, page);
    var c := ConvertRequest(iov, sectorOffset, sectors, maxSectors, page);
    BudgetExactly(iov, sectorOffset * 512, sectors * 512, budget, page);
    BudgetBytes(maxSectors, page);
    if TotalPagesTouched(c.out, page) <= budget {
      BytesWithinPages(c.out, page);
      MulMonotone(TotalPagesTouched(c.out, page), budget, page);
    }
  }

  /** The budget is the number of whole pages in the largest transfer; so no page if that is less than one. */
  lemma BudgetIsQuotient(maxSectors: nat, page: PageSize)
    requires maxSectors < 0x1_0000_0000
    ensures PageBudget(maxSectors, page) * page <= maxSectors * 512 < (PageBudget(maxSectors, page) + 1) * page
    ensures PageBudget(maxSectors, page) == 0 <==> maxSectors * 512 < page
    ensures PageBudget(maxSectors, page) < 0x1_0000_0000
  {
    var q, r := Quotient(maxSectors * 512, page);
    var k, z := Quotient(page, 512);
    MulMonotone(512, page, 0x1_0000_0000);
    QuotientLess(maxSectors * 512, page, 0x1_0000_0000);
    assert PageBudget(maxSectors, page) == q;
    assert (q + 1) * page == q * page + page;
    if q > 0 {
      MulGrows(q, page);
    }
  }

  lemma BudgetBytes(maxSectors: nat, page: PageSize)
    ensures PageBudget(maxSectors, page) * page <= maxSectors * 512
  {
    var x := U64(maxSectors * 512);
    var q, r := Quotient(x, page);
    MulMonotone(U32(q), q, page);
  }

  /** A concrete overrun: 16 TiB at an aligned address count as zero pages of 4 KiB. */
  lemma HugeBufferOverrunsBudget()
    ensures var iov := [Iovec(4096, 0x8_0000_0000)];
            var c := Convert(iov, 0, 0x1000_0000_0000, 0, 256, 4096);
            c.bytes == 0x1000_0000_0000 && TotalPagesTouched(c.out, 4096) > 256
  {
    hide Convert, TotalPagesTouched;
    TakenWhole(4096, 0x8_0000_0000, 256, 4096);
  }

  /** A buffer whose 32-bit need fits the budget is taken whole. */
  lemma TakenWhole(base: nat, sectors: nat, budget: nat, page: PageSize)
    requires 0 < sectors && 0 < budget < 0x1_0000_0000 && U32(PagesNeeded(base, sectors * 512, page)) <= budget
    ensures var c := Convert([Iovec(base, sectors)], 0, sectors * 512, 0, budget, page);
            c.bytes == sectors * 512 && PagesNeeded(base, sectors * 512, page) <= TotalPagesTouched(c.out, page) + 1
  {
    hide Cut, Convert, TotalPagesTouched, Peak, PagesTouched, PagesNeeded, U32;
    var iov := [Iovec(base, sectors)];
    var at, wanted, need, piece, rest := PeakTakes(iov, 0, sectors * 512, 0, budget, page);
    PeakStops(iov[1..], 0, 0, piece.spent, budget, page);
    NeedWithinTouched(Iovec(base, sectors * 512), page);
  }

  /** On one buffer the peak is what the whole request needs. */
  lemma SingleBufferBudget(base: nat, sectors: nat, budget: nat, page: PageSize)
    requires 0 < sectors && 0 < budget < 0xFFFF_FFFF
    ensures var c := Convert([Iovec(base, sectors)], 0, sectors * 512, 0, budget, page);
            TotalPagesTouched(c.out, page) <= budget <==> CountDetects(PagesNeeded(base, sectors * 512, page), budget)
  {
    hide PagesNeeded, Convert, TotalPagesTouched;
    var iov := [Iovec(base, sectors)];
    assert iov[1..] == [];
    assert Peak(iov, 0, sectors * 512, 0, budget, page) == PagesNeeded(base, sectors * 512, page);
    BudgetExactly(iov, 0, sectors * 512, budget, page);
  }

  lemma NeedWithinTouched(e: Iovec, page: PageSize)
    ensures PagesNeeded(e.base, e.len, page) <= PagesTouched(e, page) + 1
  {
    hide PagesTouched;
    var touched := PagesTouched(e, page);
    TouchedHoldsBytes(e, page);
    assert e.len + (page - 1) < (touched + 1) * page;
    QuotientLess(e.len + (page - 1), page, touched + 1);
  }

  /** Entries waste less than two pages each: what is charged is moved, but for that. */
  lemma {:induction false} ChargedIsMoved(iov: seq<Iovec>, offset: nat, left: nat, pages: nat, budget: nat,
                                          page: PageSize)
    requires pages <= budget < 0x1_0000_0000
    ensures var c := Convert(iov, offset, left, pages, budget, page);
            c.pages * page <= pages * page + c.bytes + 2 * |c.out| * page
  {
    hide Cut, PagesTouched, PagesNeeded, Peak, Convert, TotalPagesTouched;
    if iov == [] || left == 0 || pages >= budget {
      PeakStops(iov, offset, left, pages, budget, page);
    } else if offset >= iov[0].len * 512 {
      PeakSkips(iov, offset, left, pages, budget, page);
      ChargedIsMoved(iov[1..], offset - iov[0].len * 512, left, pages, budget, page);
    } else {
      var piece, rest := ConvertParts(iov, offset, left, pages, budget, page);
      var base, wanted := iov[0].base + offset, Min(iov[0].len * 512 - offset, left);
      CutLength(base, wanted, pages, budget, page);
      ChargedIsMoved(iov[1..], 0, left - piece.length, piece.spent, budget, page);
      CutIsMoved(base, wanted, pages, budget, page);
      assert 2 * (1 + |rest.out|) * page == 2 * page + 2 * |rest.out| * page;
    }
  }

  lemma CutIsMoved(base: nat, wanted: nat, pages: nat, budget: nat, page: PageSize)
    requires pages < budget < 0x1_0000_0000
    ensures var piece := Cut(base, wanted, pages, budget, page);
            piece.spent * page <= pages * page + piece.length + 2 * page
  {
    hide Cut, PagesNeeded, PageRoom;
    CutByNeed(base, wanted, pages, budget, page);
    var need := pages + PagesNeeded(base, wanted, page);
    if U32(need) <= budget {
      NeedIsMoved(base, wanted, pages, page);
      MulMonotone(U32(need), need, page);
    } else {
      RoomIsMoved(base, wanted, pages, budget, page);
    }
  }

  lemma NeedIsMoved(base: nat, length: nat, pages: nat, page: PageSize)
    ensures (pages + PagesNeeded(base, length, page)) * page <= pages * page + length + 2 * page
  {
    CeilDivBounds(length, page);
    var c, m := CeilDiv(length, page), if base % page == 0 then 0 else 1;
    assert (pages + (c + m)) * page == pages * page + c * page + m * page;
  }

  lemma RoomIsMoved(base: nat, wanted: nat, pages: nat, budget: nat, page: PageSize)
    requires pages < budget < 0x1_0000_0000 && U32(pages + PagesNeeded(base, wanted, page)) > budget
    ensures var length := Min(wanted, PageRoom(base, budget - pages, page));
            budget * page <= pages * page + length + 2 * page
  {
    if wanted <= PageRoom(base, budget - pages, page) {
      RoomNeeds(base, wanted, budget - pages, page);
    }
    var np := budget - pages;
    assert budget * page == pages * page + np * page && (np - 1) * page == np * page - page;
  }

  /** The leading buffers that end at or before `offset`. */
  function Ended(iov: seq<Iovec>, offset: nat): (n: nat)
    ensures n <= |iov|
  {
    if iov == [] || offset < iov[0].len * 512 then 0 else 1 + Ended(iov[1..], offset - iov[0].len * 512)
  }

  /** A conversion has one entry for each buffer that it ends, and at most one more. */
  lemma {:induction false} EntriesEndBuffers(iov: seq<Iovec>, offset: nat, left: nat, pages: nat, budget: nat,
                                             page: PageSize)
    requires budget < 0x1_0000_0000
    ensures var c := Convert(iov, offset, left, pages, budget, page);
            Ended(iov, offset) + |c.out| <= Ended(iov, offset + c.bytes) + 1
  {
    hide Cut, Convert, Peak, TotalPagesTouched;
    if iov == [] || left == 0 || pages >= budget {
      PeakStops(iov, offset, left, pages, budget, page);
    } else if offset >= iov[0].len * 512 {
      PeakSkips(iov, offset, left, pages, budget, page);
      EntriesEndBuffers(iov[1..], offset - iov[0].len * 512, left, pages, budget, page);
    } else {
      var piece, rest := ConvertParts(iov, offset, left, pages, budget, page);
      CutLength(iov[0].base + offset, Min(iov[0].len * 512 - offset, left), pages, budget, page);
      if offset + piece.length < iov[0].len * 512 {
        PeakStops(iov[1..], 0, left - piece.length, piece.spent, budget, page);
      } else {
        EntriesEndBuffers(iov[1..], 0, left - piece.length, piece.spent, budget, page);
      }
    }
  }

  // ---------------------------------------------------------------------------------------------
  // Progress
  // ---------------------------------------------------------------------------------------------

  /** A conversion stops only because the request is complete or the budget is used up. */
  lemma {:induction false} ConvertFinishesOrFills(iov: seq<Iovec>, offset: nat, left: nat, pages: nat, budget: nat,
                                                  page: PageSize)
    requires pages <= budget < 0x1_0000_0000
    requires offset + left <= |Addresses(iov, 512)|
    ensures var c := Convert(iov, offset, left, pages, budget, page);
            c.bytes == left || c.pages == budget
  {
    hide Cut, Addresses;
    AddressesSplit(iov);
    if iov != [] && left > 0 && pages < budget {
      if offset >= iov[0].len * 512 {
        ConvertFinishesOrFills(iov[1..], offset - iov[0].len * 512, left, pages, budget, page);
      } else {
        var base, wanted := iov[0].base + offset, Min(iov[0].len * 512 - offset, left);
        CutLength(base, wanted, pages, budget, page);
        var piece, rest := ConvertParts(iov, offset, left, pages, budget, page);
        if piece.length == wanted {
          ConvertFinishesOrFills(iov[1..], 0, left - piece.length, piece.spent, budget, page);
        }
      }
    }
  }

  /** The pages that the rest of the buffer at `offset` needs for the first piece of a request. */
  function FirstNeed(iov: seq<Iovec>, offset: nat, left: nat, page: PageSize): nat {
    if iov == [] then 0
    else if offset >= iov[0].len * 512 then FirstNeed(iov[1..], offset - iov[0].len * 512, left, page)
    else PagesNeeded(iov[0].base + offset, Min(iov[0].len * 512 - offset, left), page)
  }

  /**
   * Exactly when a conversion of a non-empty remainder makes no progress: there is no page to
   * spend, or a single one while the next byte is not at the start of a page. A count of pages that
   * wraps to at most one is taken for progress.
   */
  lemma {:induction false} ConvertProgress(iov: seq<Iovec>, offset: nat, left: nat, budget: nat, page: PageSize)
    requires left > 0 && budget < 0x1_0000_0000
    requires offset < |Addresses(iov, 512)|
    ensures Convert(iov, offset, left, 0, budget, page).bytes == 0 <==>
              (budget == 0 || (budget == 1 && Addresses(iov, 512)[offset] % page != 0
                               && CountDetects(FirstNeed(iov, offset, left, page), 1)))
  {
    hide Cut, Addresses, PagesNeeded;
    AddressesSplit(iov);
    if iov != [] && budget > 0 {
      var whole := iov[0].len * 512;
      if offset >= whole {
        ConvertProgress(iov[1..], offset - whole, left, budget, page);
      } else {
        var base, wanted := iov[0].base + offset, Min(whole - offset, left);
        FirstPiece(base, wanted, budget, page);
      }
    }
  }

  lemma FirstPiece(base: nat, wanted: nat, budget: nat, page: PageSize)
    requires wanted > 0 && 0 < budget < 0x1_0000_0000
    ensures var piece := Cut(base, wanted, 0, budget, page);
            && (piece.length == 0 <==>
                  budget == 1 && base % page != 0 && CountDetects(PagesNeeded(base, wanted, page), 1))
            && (piece.length == 0 ==> piece.spent == budget)
  {
    hide Cut;
    CutByNeed(base, wanted, 0, budget, page);
    ChargeIsNeed(base, wanted, page);
    CeilDivBounds(wanted, page);
    assert CeilDiv(wanted, page) >= 1;
    var k := if Misaligned(base, page) then budget - 1 else budget;
    if k > 0 {
      MulGrows(k, page);
    }
  }

  // ---------------------------------------------------------------------------------------------
  // Block alignment
  // ---------------------------------------------------------------------------------------------

  predicate BlockSize(block: nat, page: PageSize) {
    block > 0 && block % 512 == 0 && page % block == 0
  }

  /** Every power of two between a sector and a page is such a block size. */
  lemma PowerBlockSize(block: nat, page: PageSize)
    requires PowerOfTwo(block) && 512 <= block <= page
    ensures BlockSize(block, page)
  {
    assert PowerOfTwo(512);
    PowerDivides(512, block);
    PowerDivides(block, page);
  }

  predicate BuffersAligned(iov: seq<Iovec>, block: nat)
    requires block > 0
  {
    forall i :: 0 <= i < |iov| ==> iov[i].len * 512 % block == 0
  }

  /** The size of the chunk that a request to the end of the vector converts at `offset`. */
  function ChunkBytes(iov: seq<Iovec>, offset: nat, budget: nat, page: PageSize): nat {
    var total := |Addresses(iov, 512)|;
    if offset > total then 0 else Convert(iov, offset, total - offset, 0, budget, page).bytes
  }

  /** Every chunk that starts on a block boundary covers whole blocks, whatever the budget. */
  ghost predicate ChunksAligned(iov: seq<Iovec>, block: nat, page: PageSize)
    requires block > 0
  {
    forall offset: nat, budget: nat | offset % block == 0 && budget < 0x1_0000_0000 ::
      ChunkBytes(iov, offset, budget, page) % block == 0
  }

  /** From a block boundary, a conversion ends on a block boundary or completes the request. */
  lemma {:induction false} ConvertAligned(iov: seq<Iovec>, offset: nat, left: nat, pages: nat, budget: nat,
                                          block: nat, page: PageSize)
    requires block > 0 && BlockSize(block, page) && BuffersAligned(iov, block)
    requires offset % block == 0 && budget < 0x1_0000_0000
    ensures var bytes := Convert(iov, offset, left, pages, budget, page).bytes;
            bytes == left || bytes % block == 0
  {
    hide Cut, BlockSize;
    if iov != [] && left > 0 && pages < budget {
      var whole := iov[0].len * 512;
      assert BuffersAligned(iov[1..], block) && whole % block == 0;
      if offset >= whole {
        MultipleDifference(offset, whole, block);
        ConvertAligned(iov[1..], offset - whole, left, pages, budget, block, page);
      } else {
        MultipleDifference(whole, offset, block);
        CutAligned(iov[0].base + offset, Min(whole - offset, left), pages, budget, block, page);
        var piece, rest := ConvertParts(iov, offset, left, pages, budget, page);
        ConvertAligned(iov[1..], 0, left - piece.length, piece.spent, budget, block, page);
        AlignedPieces(piece.length, rest.bytes, left, whole - offset, block);
      }
    }
  }

  lemma AlignedPieces(length: nat, more: nat, left: nat, gap: nat, block: nat)
    requires block > 0 && gap % block == 0
    requires length <= left && (length == Min(gap, left) || length % block == 0)
    requires more == left - length || more % block == 0
    requires length == left ==> more == 0
    ensures length + more == left || (length + more) % block == 0
  {
    if length % block == 0 && more % block == 0 {
      MultipleSum(length, more, block);
    }
  }

  lemma MultipleDifference(x: nat, y: nat, n: nat)
    requires n > 0 && x >= y && x % n == 0 && y % n == 0
    ensures (x - y) % n == 0
  {
    var p, r := Quotient(x, n);
    var q, s := Quotient(y, n);
    assert x - y == (p - q) * n + 0;
    DivModUnique(x - y, n, p - q, 0);
  }

  lemma MultipleSum(x: nat, y: nat, n: nat)
    requires n > 0 && x % n == 0 && y % n == 0
    ensures (x + y) % n == 0
  {
    var p, r := Quotient(x, n);
    var q, s := Quotient(y, n);
    assert x + y == (p + q) * n + 0;
    DivModUnique(x + y, n, p + q, 0);
  }

  lemma CutAligned(base: nat, wanted: nat, pages: nat, budget: nat, block: nat, page: PageSize)
    requires pages < budget && BlockSize(block, page)
    ensures var length := Cut(base, wanted, pages, budget, page).length;
            length == wanted || length % block == 0
  {
    var k := if Misaligned(base, page) then budget - pages - 1 else budget - pages;
    var q, r := Quotient(page, block);
    assert k * page == (k * q) * block + 0;
    DivModUnique(k * page, block, k * q, 0);
  }

  /** From an unaligned buffer end, a start and a budget whose conversion ends inside a block. */
  lemma {:induction false} UnalignedChunk(iov: seq<Iovec>, block: nat, page: PageSize)
    returns (offset: nat, budget: nat)
    requires BlockSize(block, page) && |Addresses(iov, 512)| % block == 0
    requires !BuffersAligned(iov, block)
    ensures offset % block == 0 && budget < 0x1_0000_0000
    ensures ChunkBytes(iov, offset, budget, page) % block != 0
  {
    hide ChunkBytes, Addresses;
    AddressesSplit(iov);
    var whole, total := iov[0].len * 512, |Addresses(iov, 512)|;
    var q, r := Quotient(whole, block);
    if r == 0 {
      MultipleDifference(total, whole, block);
      assert forall i :: 0 <= i < |iov[1..]| ==> iov[1..][i] == iov[i + 1];
      var o, b := UnalignedChunk(iov[1..], block, page);
      MultipleSum(whole, o, block);
      offset, budget := whole + o, b;
      ChunkSkips(iov, o, b, page);
    } else {
      offset := q * block;
      DivModUnique(offset, block, q, 0);
      budget := SpendExactly(iov[0].base + offset, r, page, block);
      ChunkEnds(iov, offset, r, budget, page);
      DivModUnique(r, block, 0, r);
    }
  }

  lemma ChunkSkips(iov: seq<Iovec>, offset: nat, budget: nat, page: PageSize)
    requires iov != []
    ensures ChunkBytes(iov, iov[0].len * 512 + offset, budget, page) == ChunkBytes(iov[1..], offset, budget, page)
  {
    hide Cut, Addresses;
    AddressesSplit(iov);
  }

  lemma ChunkEnds(iov: seq<Iovec>, offset: nat, length: nat, budget: nat, page: PageSize)
    requires iov != [] && length > 0 && offset + length == iov[0].len * 512 < |Addresses(iov, 512)|
    requires 0 < budget && Cut(iov[0].base + offset, length, 0, budget, page) == Piece(length, budget)
    ensures ChunkBytes(iov, offset, budget, page) == length
  {
    hide Cut, Addresses;
    var left := |Addresses(iov, 512)| - offset;
    assert Min(iov[0].len * 512 - offset, left) == length;
    assert Convert(iov[1..], 0, left - length, budget, budget, page).bytes == 0;
  }

  /** A budget that the first `length` bytes use up. */
  lemma SpendExactly(base: nat, length: nat, page: PageSize, block: nat) returns (budget: nat)
    requires BlockSize(block, page) && 0 < length < block
    ensures 0 < budget < 0x1_0000_0000
    ensures Cut(base, length, 0, budget, page) == Piece(length, budget)
  {
    ChargeIsNeed(base, length, page);
    var q, r := Quotient(page, block);
    if q == 0 {
      assert false;
    }
    MulGrows(q, block);
    CeilDivUnique(length, page, 1);
    budget := PageCharge(base, length, page);
  }

  /** Chunks of an aligned request stay aligned, for every budget, exactly if every buffer is aligned. */
  lemma ChunksAlignedExactly(iov: seq<Iovec>, block: nat, page: PageSize)
    requires BlockSize(block, page) && |Addresses(iov, 512)| % block == 0
    ensures ChunksAligned(iov, block, page) <==> BuffersAligned(iov, block)
  {
    if BuffersAligned(iov, block) {
      forall offset: nat, budget: nat | offset % block == 0 && budget < 0x1_0000_0000
        ensures ChunkBytes(iov, offset, budget, page) % block == 0
      {
        AlignedChunk(iov, offset, budget, block, page);
      }
    } else {
      var offset, budget := UnalignedChunk(iov, block, page);
      assert ChunkBytes(iov, offset, budget, page) % block != 0;
    }
  }

  lemma AlignedChunk(iov: seq<Iovec>, offset: nat, budget: nat, block: nat, page: PageSize)
    requires block > 0 && BlockSize(block, page) && |Addresses(iov, 512)| % block == 0 && BuffersAligned(iov, block)
    requires offset % block == 0 && budget < 0x1_0000_0000
    ensures ChunkBytes(iov, offset, budget, page) % block == 0
  {
    hide Convert, Addresses, BlockSize, BuffersAligned;
    var total := |Addresses(iov, 512)|;
    if offset <= total {
      MultipleDifference(total, offset, block);
      ConvertAligned(iov, offset, total - offset, 0, budget, block, page);
    }
  }
}
