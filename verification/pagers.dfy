/** Size bookkeeping of the two memory-only pagers: the total allocation is
    rounded up to the Win32 allocation granularity or to the Posix system page
    size, only ever grows, and determines the number of allocated pages. The
    mappings themselves are not modelled. */
module Pagers {
  import opened Wrappers
  import ClrInt

  predicate IsMultiple(m: int, unit: int)
    requires unit > 0
  {
    m % unit == 0
  }

  /** `r` is the least positive multiple of `unit` that is at least `size`. */
  predicate IsLeastCover(r: int, size: int, unit: int)
    requires unit > 0
  {
    && r > 0 && IsMultiple(r, unit) && r >= size
    && forall m | m > 0 && IsMultiple(m, unit) && m >= size :: r <= m
  }

  // ---------------------------------------------------------------------------
  // Rounding (C#'s truncating `/` and `%`)
  // ---------------------------------------------------------------------------

  /** `NearestSizeToAllocationGranularity` (Win32). For a non-negative size
      the result is the least positive multiple of the granularity that holds
      `size`; zero rounds to one granularity unit. */
  function NearestSizeToAllocationGranularity(size: int, granularity: int): (r: int)
    requires granularity > 0
    ensures size >= 0 ==> IsLeastCover(r, size, granularity)
    ensures size == 0 ==> r == granularity
  {
    var r :=
      if ClrInt.Rem(size, granularity) == 0 then
        (if size > granularity then size else granularity)
      else (ClrInt.Quot(size, granularity) + 1) * granularity;
    assert size >= 0 ==> IsLeastCover(r, size, granularity) by {
      if size == 0 {
        assert IsMultiple(granularity, granularity);
        forall m | m > 0 && IsMultiple(m, granularity) ensures granularity <= m {
          MultipleIsProduct(m, granularity);
          MulCancel(0, m / granularity, granularity);
          MulMonotone(1, m / granularity, granularity);
        }
      } else if size > 0 && size % granularity == 0 {
        if size <= granularity {
          assert size == granularity by {
            MultipleIsProduct(size, granularity);
            MulCancel(0, size / granularity, granularity);
            MulMonotone(1, size / granularity, granularity);
          }
        }
        MultipleIsLeast(size, granularity);
      } else if size > 0 {
        RoundUpIsLeast(size, granularity);
      }
    }
    r
  }

  /** `NearestSizeToPageSize` (Posix): sixteen system pages for zero, the size
      itself for a multiple of the system page, otherwise the next multiple
      up; for a positive size that is the least cover. */
  function NearestSizeToPageSize(size: int, sysPageSize: int): (r: int)
    requires sysPageSize > 0
    ensures size == 0 ==> r == 16 * sysPageSize
    ensures size > 0 ==> IsLeastCover(r, size, sysPageSize)
    ensures size != 0 && ClrInt.Rem(size, sysPageSize) == 0 ==> r == size
  {
    var r :=
      if size == 0 then sysPageSize * 16
      else if ClrInt.Rem(size, sysPageSize) == 0 then size
      else (ClrInt.Quot(size, sysPageSize) + 1) * sysPageSize;
    assert size > 0 ==> IsLeastCover(r, size, sysPageSize) by {
      if size > 0 {
        if size % sysPageSize == 0 {
          MultipleIsLeast(size, sysPageSize);
        } else {
          RoundUpIsLeast(size, sysPageSize);
        }
      }
    }
    r
  }

  lemma MulMonotone(a: int, b: int, u: int)
    requires a <= b && u > 0
    ensures a * u <= b * u
  {
  }

  lemma MulCancel(a: int, b: int, u: int)
    requires a * u < b * u && u > 0
    ensures a < b
  {
    if a >= b { MulMonotone(b, a, u); }
  }

  lemma DivModOfProduct(a: int, u: int)
    requires u > 0
    ensures (a * u) / u == a && IsMultiple(a * u, u)
  {
    var d, r := (a * u) / u, (a * u) % u;
    assert a * u == d * u + r;
    assert (a - d) * u == r;
    if a - d >= 1 {
      MulMonotone(1, a - d, u);
    } else if a - d <= -1 {
      MulMonotone(a - d, -1, u);
    }
  }

  lemma MultipleIsProduct(m: int, u: int)
    requires u > 0 && IsMultiple(m, u)
    ensures m == (m / u) * u
  {
  }

  /** Rounding a size strictly between two multiples up to the next one gives
      the least cover. */
  lemma RoundUpIsLeast(size: int, unit: int)
    requires size > 0 && unit > 0 && size % unit != 0
    ensures IsLeastCover((size / unit + 1) * unit, size, unit)
  {
    var q := size / unit;
    assert size == q * unit + size % unit;
    MulMonotone(0, q + 1, unit);
    assert (q + 1) * unit == q * unit + unit;
    DivModOfProduct(q + 1, unit);
    forall m | m > 0 && IsMultiple(m, unit) && m >= size
      ensures (q + 1) * unit <= m
    {
      MultipleIsProduct(m, unit);
      MulCancel(q, m / unit, unit);
      MulMonotone(q + 1, m / unit, unit);
    }
  }

  /** A positive multiple of the unit is its own least cover. */
  lemma MultipleIsLeast(size: int, unit: int)
    requires size > 0 && unit > 0 && size % unit == 0
    ensures IsLeastCover(size, size, unit)
  {
  }

  // ---------------------------------------------------------------------------
  // The pager's size state
  // ---------------------------------------------------------------------------

  /** How a pager rounds its sizes. */
  datatype Rounding =
    | AllocationGranularity(granularity: int)
    | SystemPages(sysPageSize: int)

  function Unit(r: Rounding): int
  {
    match r
    case AllocationGranularity(g) => g
    case SystemPages(s) => s
  }

  function Round(r: Rounding, size: int): int
    requires Unit(r) > 0
  {
    match r
    case AllocationGranularity(g) => NearestSizeToAllocationGranularity(size, g)
    case SystemPages(s) => NearestSizeToPageSize(size, s)
  }

  datatype PagerSize = PagerSize(
    rounding: Rounding,
    pageSize: int,
    totalAllocationSize: int,
    numberOfAllocatedPages: int)

  predicate ValidGeometry(p: PagerSize)
  {
    Unit(p.rounding) > 0 && p.pageSize > 0
  }

  /** The page count is the total divided by the page size. */
  predicate Consistent(p: PagerSize)
    requires p.pageSize > 0
  {
    p.numberOfAllocatedPages == ClrInt.Quot(p.totalAllocationSize, p.pageSize)
  }

  /** The Win32 constructor: the initial size rounded, or one granularity unit
      when no size is given. */
  function NewWin32Pager(granularity: int, pageSize: int, initialFileSize: Option<int>): (p: PagerSize)
    requires granularity > 0 && pageSize > 0
    ensures ValidGeometry(p) && Consistent(p)
    ensures initialFileSize.Some? && initialFileSize.value >= 0 ==>
      IsLeastCover(p.totalAllocationSize, initialFileSize.value, granularity)
    ensures initialFileSize.None? ==> p.totalAllocationSize == granularity
  {
    var total := if initialFileSize.Some? then NearestSizeToAllocationGranularity(initialFileSize.value, granularity)
                 else granularity;
    PagerSize(AllocationGranularity(granularity), pageSize, total, ClrInt.Quot(total, pageSize))
  }

  /** The Posix constructor: the initial size, or the zero the field starts
      with, rounded to system pages. */
  function NewPosixPager(sysPageSize: int, pageSize: int, initialFileSize: Option<int>): (p: PagerSize)
    requires sysPageSize > 0 && pageSize > 0
    ensures ValidGeometry(p) && Consistent(p)
    ensures initialFileSize.None? ==> p.totalAllocationSize == 16 * sysPageSize
    ensures initialFileSize.Some? && initialFileSize.value > 0 ==>
      IsLeastCover(p.totalAllocationSize, initialFileSize.value, sysPageSize)
  {
    var requested := if initialFileSize.Some? then initialFileSize.value else 0;
    var total := NearestSizeToPageSize(requested, sysPageSize);
    PagerSize(SystemPages(sysPageSize), pageSize, total, ClrInt.Quot(total, pageSize))
  }

  /** `AllocateMorePages(newLength)`: nothing when the rounded length is not
      larger than the total; otherwise the total becomes the rounded length
      and the page count follows it. */
  function AllocateMorePages(p: PagerSize, newLength: int): (p': PagerSize)
    requires ValidGeometry(p)
    ensures ValidGeometry(p') && p'.rounding == p.rounding && p'.pageSize == p.pageSize
    ensures Round(p.rounding, newLength) <= p.totalAllocationSize ==> p' == p
    ensures Round(p.rounding, newLength) > p.totalAllocationSize ==>
      p'.totalAllocationSize == Round(p.rounding, newLength) && Consistent(p')
  {
    var adjusted := Round(p.rounding, newLength);
    if adjusted <= p.totalAllocationSize then p
    else
      var total := p.totalAllocationSize + (adjusted - p.totalAllocationSize);
      p.(totalAllocationSize := total, numberOfAllocatedPages := ClrInt.Quot(total, p.pageSize))
  }

  /** The total never shrinks, ends at the larger of the old total and the
      rounded request, and the page count stays the total over the page size. */
  lemma AllocationNeverShrinks(p: PagerSize, newLength: int)
    requires ValidGeometry(p) && Consistent(p)
    ensures var p' := AllocateMorePages(p, newLength);
      && p'.totalAllocationSize >= p.totalAllocationSize
      && p'.totalAllocationSize >= Round(p.rounding, newLength)
      && (p'.totalAllocationSize == p.totalAllocationSize || p'.totalAllocationSize == Round(p.rounding, newLength))
      && Consistent(p')
  {
  }

  /** A request the pager already covers changes nothing, so asking twice is
      asking once. */
  lemma AllocateMorePagesIdempotent(p: PagerSize, newLength: int)
    requires ValidGeometry(p)
    ensures AllocateMorePages(AllocateMorePages(p, newLength), newLength) == AllocateMorePages(p, newLength)
  {
  }

  /** A positive multiple of the rounding unit is rounded to itself. */
  lemma RoundKeepsMultiple(r: Rounding, size: int)
    requires Unit(r) > 0 && size > 0 && IsMultiple(size, Unit(r))
    ensures Round(r, size) == size
  {
    match r
    case AllocationGranularity(g) =>
      if size <= g {
        assert size == g by {
          MultipleIsProduct(size, g);
          MulCancel(0, size / g, g);
          MulMonotone(1, size / g, g);
        }
      }
    case SystemPages(s) =>
  }

  /** Growing a pager whose total `t` is a multiple of both the rounding unit
      and the page size to `k * t` multiplies its page count by `k`. */
  lemma GrowingByFactorScalesPages(p: PagerSize, k: int)
    requires ValidGeometry(p) && Consistent(p) && k >= 1
    requires p.totalAllocationSize > 0
    requires IsMultiple(p.totalAllocationSize, Unit(p.rounding)) && IsMultiple(p.totalAllocationSize, p.pageSize)
    ensures var p' := AllocateMorePages(p, k * p.totalAllocationSize);
      && p'.totalAllocationSize == k * p.totalAllocationSize
      && p'.numberOfAllocatedPages == k * p.numberOfAllocatedPages
      && IsMultiple(p'.totalAllocationSize, Unit(p.rounding)) && IsMultiple(p'.totalAllocationSize, p.pageSize)
  {
    var t := p.totalAllocationSize;
    var u := Unit(p.rounding);
    var c := t / p.pageSize;
    MultipleIsProduct(t, p.pageSize);
    MultipleIsProduct(t, u);
    assert k * t == (k * (t / u)) * u;
    assert k * t == (k * c) * p.pageSize;
    MulMonotone(1, k, t);
    DivModOfProduct(k * (t / u), u);
    DivModOfProduct(k * c, p.pageSize);
    RoundKeepsMultiple(p.rounding, k * t);
    assert ClrInt.Quot(t, p.pageSize) == c;
  }

  /** `n` successive requests, each for twice the previous size, starting from
      twice `size`. */
  function GrowByDoubling(p: PagerSize, size: int, n: nat): PagerSize
    requires ValidGeometry(p)
    decreases n
  {
    if n == 0 then p
    else GrowByDoubling(AllocateMorePages(p, 2 * size), 2 * size, n - 1)
  }

  function Pow2(n: nat): nat
  {
    if n == 0 then 1 else 2 * Pow2(n - 1)
  }

  /** Repeated doubling from a total that is a multiple of both the rounding
      unit and the page size doubles the page count every time. */
  lemma {:induction false} DoublingDoublesPages(p: PagerSize, n: nat)
    requires ValidGeometry(p) && Consistent(p)
    requires p.totalAllocationSize > 0
    requires IsMultiple(p.totalAllocationSize, Unit(p.rounding)) && IsMultiple(p.totalAllocationSize, p.pageSize)
    ensures GrowByDoubling(p, p.totalAllocationSize, n).numberOfAllocatedPages == Pow2(n) * p.numberOfAllocatedPages
    ensures GrowByDoubling(p, p.totalAllocationSize, n).totalAllocationSize == Pow2(n) * p.totalAllocationSize
    decreases n
  {
    if n > 0 {
      var t := p.totalAllocationSize;
      var p1 := AllocateMorePages(p, 2 * t);
      GrowingByFactorScalesPages(p, 2);
      assert p1.totalAllocationSize == 2 * t && p1.numberOfAllocatedPages == 2 * p.numberOfAllocatedPages;
      assert GrowByDoubling(p, t, n) == GrowByDoubling(p1, 2 * t, n - 1);
      DoublingDoublesPages(p1, n - 1);
      MoveFactorTwo(Pow2(n - 1), p.numberOfAllocatedPages);
      MoveFactorTwo(Pow2(n - 1), t);
    }
  }

  lemma MoveFactorTwo(x: int, y: int)
    ensures x * (2 * y) == (2 * x) * y
  {
  }

  // ---------------------------------------------------------------------------
  // Byte counts of writes
  // ---------------------------------------------------------------------------

  /** `WriteDirect`: the bytes copied for `pagesToWrite` pages, as a 32-bit
      product. */
  function WriteDirect(pageSize: int, pagesToWrite: int): (bytes: int)
    ensures ClrInt.MinInt32 <= bytes <= ClrInt.MaxInt32
    ensures 0 <= pagesToWrite * pageSize <= ClrInt.MaxInt32 ==> bytes == pagesToWrite * pageSize
  {
    ClrInt.ToInt32(pagesToWrite * pageSize)
  }

  /** The header of the page handed to `Write`. */
  datatype PageImage = PageImage(isOverflow: bool, overflowSize: int)

  /** `Write`: an overflow page writes the pages its value spans
      (`GetNumberOfOverflowPages`), any other page one page; whenever the
      byte count fits in 32 bits that is the page count times the page size. */
  function Write(pageSize: int, overflowPages: int -> int, page: PageImage): (bytes: int)
    ensures 0 < pageSize <= ClrInt.MaxInt32 && !page.isOverflow ==> bytes == pageSize
    ensures 0 < pageSize <= ClrInt.MaxInt32 && page.isOverflow
      && 0 <= overflowPages(page.overflowSize) && overflowPages(page.overflowSize) * pageSize <= ClrInt.MaxInt32
      ==> bytes == overflowPages(page.overflowSize) * pageSize
  {
    var n := overflowPages(page.overflowSize);
    assert 0 < pageSize && 0 <= n && n * pageSize <= ClrInt.MaxInt32 ==> ClrInt.ToInt32(n) == n && 0 <= n * pageSize by {
      if 0 < pageSize && 0 <= n && n * pageSize <= ClrInt.MaxInt32 {
        FactorBelowProduct(n, pageSize);
      }
    }
    WriteDirect(pageSize, if page.isOverflow then ClrInt.ToInt32(n) else 1)
  }

  /** A non-negative factor of a product with a positive factor is at most
      that product. */
  lemma FactorBelowProduct(n: int, u: int)
    requires 0 <= n && 0 < u
    ensures 0 <= n <= n * u
  {
    if n > 0 {
      MulMonotone(1, u, n);
    }
  }
}
