/** Page rounding with bit masks: the watched range of the access monitor and the span of the patch writers. */
module PageCover {
  import opened Words

  /** `x & ~(pageSize - 1)` on 64-bit words. */
  function MaskToPage(x: u64, pageSize: u64): nat
    requires pageSize > 0
  {
    And(x, Not64(pageSize - 1))
  }

  ghost predicate PageSize(pageSize: nat) {
    exists k: nat :: k < 64 && pageSize == Power(2, k)
  }

  lemma PageSizeIsWord(pageSize: nat)
    requires PageSize(pageSize)
    ensures 0 < pageSize < TWO_64
  {
    var k: nat :| k < 64 && pageSize == Power(2, k);
    PowerMonotone(k, 63);
    WordPowers();
  }

  /** The mask form is division: it drops to the page boundary at or below. */
  lemma MaskIsRoundDown(x: u64, pageSize: nat)
    requires PageSize(pageSize)
    ensures 0 < pageSize < TWO_64 && MaskToPage(x, pageSize) == RoundDown(x, pageSize)
  {
    PageSizeIsWord(pageSize);
    var k: nat :| k < 64 && pageSize == Power(2, k);
    WordPowers();
    AndHighMask(x, k, 64);
  }

  datatype Span = Span(base: nat, size: nat)

  /** The page-aligned range `enable` watches for `sz` bytes at `addr`. */
  function WatchedSpan(addr: u64, sz: u64, pageSize: u64): Span
    requires pageSize > 0
  {
    var base := MaskToPage(addr, pageSize);
    Span(base, MaskToPage(Wrap(addr + sz - base + pageSize - 1), pageSize))
  }

  /** The span the patch writers make writable: from the page start to the last patched byte. */
  function PatchSpan(addr: u64, len: nat, pageSize: u64): Span
    requires pageSize > 0 && MaskToPage(addr, pageSize) <= addr
  {
    var pageStart := MaskToPage(addr, pageSize);
    Span(pageStart, addr + len - pageStart)
  }

  predicate Aligned(x: int, pageSize: nat)
    requires pageSize > 0
  {
    x % pageSize == 0
  }

  lemma RoundDownFacts(x: nat, d: nat)
    requires d > 0
    ensures Aligned(RoundDown(x, d), d) && RoundDown(x, d) <= x < RoundDown(x, d) + d
    ensures RoundDown(x, d) == x - x % d
  {
    DivUnique(RoundDown(x, d), d, x / d, 0);
  }

  /** A multiple of `d` at or below `x` is at most the rounded-down `x`. */
  lemma RoundDownGreatest(x: nat, d: nat, y: int)
    requires d > 0 && Aligned(y, d) && y <= x
    ensures y <= RoundDown(x, d)
  {
    RoundDownFacts(x, d);
    var q := RoundDown(x, d);
    if y > q {
      MultiplesApart(q, y, d);
    }
  }

  lemma MultiplesApart(x: int, y: int, d: nat)
    requires d > 0 && Aligned(x, d) && Aligned(y, d) && x < y
    ensures x + d <= y
  {
    assert x == d * (x / d) && y == d * (y / d);
    PositiveFactor(d, y / d - x / d);
    MulAtLeast(d, y / d - x / d);
  }

  /** The watched span is the smallest page-aligned interval that contains the range. */
  lemma WatchedSpanIsLeastCover(addr: u64, sz: u64, pageSize: nat)
    requires PageSize(pageSize) && addr % pageSize + sz + pageSize <= TWO_64
    ensures 0 < pageSize < TWO_64
    ensures var s := WatchedSpan(addr, sz, pageSize);
            && Aligned(s.base, pageSize) && Aligned(s.size, pageSize)
            && s.base <= addr && addr + sz <= s.base + s.size
            && (forall lo, hi :: Aligned(lo, pageSize) && Aligned(hi, pageSize) && lo <= addr && addr + sz <= hi ==>
                  lo <= s.base && s.base + s.size <= hi)
  {
    hide MaskToPage, RoundDown, PageSize, Aligned;
    MaskIsRoundDown(addr, pageSize);
    RoundDownFacts(addr, pageSize);
    var base := RoundDown(addr, pageSize);
    var need := addr + sz - base + pageSize - 1;
    NeedFits(addr, sz, pageSize);
    MaskIsRoundDown(need, pageSize);
    RoundDownFacts(need, pageSize);
    var size := RoundDown(need, pageSize);
    assert WatchedSpan(addr, sz, pageSize) == Span(base, size);
    forall lo, hi | Aligned(lo, pageSize) && Aligned(hi, pageSize) && lo <= addr && addr + sz <= hi
      ensures lo <= base && base + size <= hi
    {
      RoundDownGreatest(addr, pageSize, lo);
      if hi < base + size {
        SumAligned(base, size, pageSize);
        MultiplesApart(hi, base + size, pageSize);
      }
    }
  }

  lemma NeedFits(addr: nat, sz: nat, pageSize: nat)
    requires pageSize > 0 && addr % pageSize + sz + pageSize <= TWO_64
    ensures 0 <= addr + sz - RoundDown(addr, pageSize) + pageSize - 1 < TWO_64
  {
    RoundDownFacts(addr, pageSize);
  }

  lemma SumAligned(x: int, y: int, d: nat)
    requires d > 0 && Aligned(x, d) && Aligned(y, d)
    ensures Aligned(x + y, d)
  {
    DivUnique(x + y, d, x / d + y / d, 0);
  }

  /** The patch writers' span starts on the page of the first patched byte and ends with the last one. */
  lemma PatchSpanIsTight(addr: u64, len: nat, pageSize: nat)
    requires PageSize(pageSize)
    ensures 0 < pageSize < TWO_64 && MaskToPage(addr, pageSize) <= addr
    ensures var s := PatchSpan(addr, len, pageSize);
            && Aligned(s.base, pageSize) && s.base <= addr < s.base + pageSize && s.base + s.size == addr + len
  {
    MaskIsRoundDown(addr, pageSize);
    RoundDownFacts(addr, pageSize);
  }
}
