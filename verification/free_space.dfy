/** The free-space allocator: reusable pages are tracked as bitmap sections of
    2048 pages each, stored in the free-space tree under the section index
    `pageNumber / 2048`. A set bit marks a free page. Section keys are the
    big-endian bytes of the index, so iterating the tree visits sections in
    ascending index order; the model scans the key set from its minimum up. */
module FreeSpace {
  import opened Wrappers

  /** Pages per section: 256 bytes of 8 bits each. */
  const PagesInSection: int := 2048

  type Bitmap = seq<bool>

  /** The free-space tree: section index to the section's bitmap. */
  type FreeSpaceTree = map<int, Bitmap>

  /** A successful allocation: the first page of the run and the updated tree. */
  datatype Allocation = Allocation(page: int, space: FreeSpaceTree)

  // ---------------------------------------------------------------------------
  // Bitmaps
  // ---------------------------------------------------------------------------

  /** Number of set bits (`StreamBitArray.SetCount`). */
  function SetCount(b: Bitmap): nat
  {
    if |b| == 0 then 0 else (if b[0] then 1 else 0) + SetCount(b[1..])
  }

  function Zeros(n: nat): (z: Bitmap)
    ensures |z| == n && forall i | 0 <= i < n :: !z[i]
  {
    seq(n, _ => false)
  }

  /** The bitmap with bits `s .. s+n-1` cleared and every other bit kept. */
  function Clear(b: Bitmap, s: int, n: int): (c: Bitmap)
    requires 0 <= s && 0 <= n && s + n <= |b|
    ensures |c| == |b|
  {
    b[..s] + Zeros(n) + b[s + n..]
  }

  /** Bits `s .. s+n-1` exist and are all set. */
  predicate RunAt(b: Bitmap, s: int, n: int)
  {
    0 <= s && 0 <= n && s + n <= |b| && forall j | s <= j < s + n :: b[j]
  }

  /** `StreamBitArray.HasStartRangeCount(n)`: the first `n` bits are set. */
  predicate HasStartRange(b: Bitmap, n: int)
  {
    RunAt(b, 0, n)
  }

  /** `StreamBitArray.GetEndRangeCount()`: the length of the trailing run of set bits. */
  function EndRange(b: Bitmap): (r: nat)
    ensures r <= |b|
    ensures RunAt(b, |b| - r, r)
    ensures r < |b| ==> !b[|b| - r - 1]
  {
    if |b| == 0 || !b[|b| - 1] then 0
    else
      var r := 1 + EndRange(b[..|b| - 1]);
      assert forall j | |b| - r <= j < |b| - 1 :: b[j] == b[..|b| - 1][j];
      r
  }

  // ---------------------------------------------------------------------------
  // Tree invariants and the free-page view
  // ---------------------------------------------------------------------------

  /** Every key is a non-negative section index and every value a full section. */
  predicate WellFormed(t: FreeSpaceTree)
  {
    forall id | id in t :: id >= 0 && |t[id]| == PagesInSection
  }

  /** No section whose every page is taken is kept in the tree. */
  predicate NoEmptySection(t: FreeSpaceTree)
  {
    forall id | id in t :: SetCount(t[id]) > 0
  }

  predicate Valid(t: FreeSpaceTree)
  {
    WellFormed(t) && NoEmptySection(t)
  }

  /** Bit `j` of section `id` is present and set. */
  predicate FreeAt(t: FreeSpaceTree, id: int, j: int)
  {
    id in t && 0 <= j < |t[id]| && t[id][j]
  }

  /** Page `p` is recorded as free. */
  predicate IsFree(t: FreeSpaceTree, p: int)
  {
    p >= 0 && FreeAt(t, p / PagesInSection, p % PagesInSection)
  }

  /** `t'` is `t` with exactly the pages `page .. page+num-1` taken, all of
      which were free in `t`; every other page keeps its state. */
  ghost predicate Takes(t: FreeSpaceTree, t': FreeSpaceTree, page: int, num: int)
  {
    && (forall id, j | 0 <= j < PagesInSection && page <= id * PagesInSection + j < page + num ::
          FreeAt(t, id, j))
    && (forall id, j | 0 <= j < PagesInSection ::
          FreeAt(t', id, j) == (FreeAt(t, id, j) && !(page <= id * PagesInSection + j < page + num)))
    && t'.Keys <= t.Keys
  }

  // ---------------------------------------------------------------------------
  // Counting lemmas
  // ---------------------------------------------------------------------------

  lemma {:induction false} SetCountAppend(a: Bitmap, b: Bitmap)
    ensures SetCount(a + b) == SetCount(a) + SetCount(b)
  {
    if |a| > 0 {
      assert (a + b)[1..] == a[1..] + b;
      SetCountAppend(a[1..], b);
    } else {
      assert a + b == b;
    }
  }

  lemma {:induction false} SetCountOfRun(b: Bitmap)
    requires forall j | 0 <= j < |b| :: b[j]
    ensures SetCount(b) == |b|
  {
    if |b| > 0 {
      SetCountOfRun(b[1..]);
    }
  }

  lemma {:induction false} SetCountZeros(b: Bitmap)
    requires forall j | 0 <= j < |b| :: !b[j]
    ensures SetCount(b) == 0
  {
    if |b| > 0 {
      SetCountZeros(b[1..]);
    }
  }

  /** A bitmap counts zero exactly when no bit is set. */
  lemma {:induction false} SetCountZeroIffClear(b: Bitmap)
    ensures SetCount(b) == 0 <==> forall j | 0 <= j < |b| :: !b[j]
  {
    if |b| > 0 {
      SetCountZeroIffClear(b[1..]);
      if SetCount(b) == 0 {
        forall j | 0 <= j < |b| ensures !b[j] {
          if j > 0 { assert b[j] == b[1..][j - 1]; }
        }
      }
      if forall j | 0 <= j < |b| :: !b[j] {
        SetCountZeros(b);
      }
    }
  }

  lemma {:induction false} SetCountBound(b: Bitmap)
    ensures SetCount(b) <= |b|
  {
    if |b| > 0 {
      SetCountBound(b[1..]);
    }
  }

  /** Splitting a bitmap around a run of `n` set bits at `s`. */
  lemma SetCountAroundRun(b: Bitmap, s: int, n: int)
    requires RunAt(b, s, n)
    ensures SetCount(b) == SetCount(b[..s]) + n + SetCount(b[s + n..])
  {
    assert b == b[..s] + b[s..s + n] + b[s + n..];
    SetCountAppend(b[..s] + b[s..s + n], b[s + n..]);
    SetCountAppend(b[..s], b[s..s + n]);
    SetCountOfRun(b[s..s + n]);
  }

  /** Clearing a run of `n` set bits lowers the count by exactly `n`. */
  lemma ClearRunCount(b: Bitmap, s: int, n: int)
    requires RunAt(b, s, n)
    ensures SetCount(Clear(b, s, n)) == SetCount(b) - n
  {
    SetCountAroundRun(b, s, n);
    SetCountAppend(b[..s] + Zeros(n), b[s + n..]);
    SetCountAppend(b[..s], Zeros(n));
    SetCountZeros(Zeros(n));
  }

  /** When a bitmap counts exactly the `n` bits of one run, no bit outside it is set. */
  lemma OnlyRunSet(b: Bitmap, s: int, n: int)
    requires RunAt(b, s, n) && SetCount(b) == n
    ensures forall j | 0 <= j < |b| && !(s <= j < s + n) :: !b[j]
  {
    SetCountAroundRun(b, s, n);
    SetCountZeroIffClear(b[..s]);
    SetCountZeroIffClear(b[s + n..]);
    forall j | 0 <= j < |b| && !(s <= j < s + n) ensures !b[j] {
      if j < s { assert b[j] == b[..s][j]; } else { assert b[j] == b[s + n..][j - s - n]; }
    }
  }

  /** Taking a run out of a section: the section is deleted when the run was all
      it had, otherwise it is stored with the run cleared. */
  function TakeRun(t: FreeSpaceTree, id: int, s: int, n: int): (t': FreeSpaceTree)
    requires id in t && RunAt(t[id], s, n)
    ensures t'.Keys <= t.Keys
    ensures forall k | k in t && k != id :: k in t' && t'[k] == t[k]
    ensures forall j :: FreeAt(t', id, j) == (FreeAt(t, id, j) && !(s <= j < s + n))
    ensures id in t' ==> SetCount(t'[id]) > 0 && |t'[id]| == |t[id]|
  {
    if SetCount(t[id]) == n then
      OnlyRunSet(t[id], s, n);
      t - {id}
    else
      ClearRunCount(t[id], s, n);
      t[id := Clear(t[id], s, n)]
  }

  // ---------------------------------------------------------------------------
  // Freeing a page
  // ---------------------------------------------------------------------------

  /** `FreePage`: set bit `page % 2048` of section `page / 2048`, starting from
      an all-clear section when the tree holds none. */
  function FreePage(t: FreeSpaceTree, page: nat): (t': FreeSpaceTree)
    requires WellFormed(t)
    ensures WellFormed(t') && (NoEmptySection(t) ==> NoEmptySection(t'))
    ensures t'.Keys == t.Keys + {page / PagesInSection}
    ensures forall k | k in t && k != page / PagesInSection :: t'[k] == t[k]
    ensures forall j | 0 <= j < PagesInSection ::
              t'[page / PagesInSection][j] ==
              (j == page % PagesInSection || FreeAt(t, page / PagesInSection, j))
  {
    var id := page / PagesInSection;
    var bits := if id in t then t[id] else Zeros(PagesInSection);
    var bits' := bits[page % PagesInSection := true];
    assert bits'[page % PagesInSection];
    SetCountZeroIffClear(bits');
    t[id := bits']
  }

  lemma SectionOffset(id: int, j: int)
    requires 0 <= j < PagesInSection
    ensures (id * PagesInSection + j) / PagesInSection == id
    ensures (id * PagesInSection + j) % PagesInSection == j
  {
  }

  /** Freeing `page` makes it free and leaves every other page as it was. */
  lemma FreePageMarksOnlyThatPage(t: FreeSpaceTree, page: nat, q: int)
    requires WellFormed(t)
    ensures IsFree(FreePage(t, page), q) <==> q == page || IsFree(t, q)
  {
    var t' := FreePage(t, page);
    if q >= 0 && q / PagesInSection == page / PagesInSection {
      assert q == page <==> q % PagesInSection == page % PagesInSection;
    }
  }

  // ---------------------------------------------------------------------------
  // Ascending scan order
  // ---------------------------------------------------------------------------

  predicate IsLeast(s: set<int>, m: int)
  {
    m in s && forall y | y in s :: m <= y
  }

  lemma {:induction false} LeastExists(s: set<int>)
    requires s != {}
    ensures exists m :: IsLeast(s, m)
    decreases s
  {
    if forall y :: y !in s {
      assert false;
    }
    var e :| e in s;
    if s != {e} {
      var s' := s - {e};
      LeastExists(s');
      var r :| IsLeast(s', r);
      var m := if e < r then e else r;
      forall y | y in s ensures m <= y {
        if y != e { assert y in s'; }
      }
      assert IsLeast(s, m);
    } else {
      assert IsLeast(s, e);
    }
  }

  /** The next section the tree iterator visits: the smallest pending key. */
  function Least(s: set<int>): (m: int)
    requires s != {}
    ensures IsLeast(s, m)
  {
    LeastExists(s);
    var m :| IsLeast(s, m);
    m
  }

  // ---------------------------------------------------------------------------
  // Small allocations (fewer pages than a section)
  // ---------------------------------------------------------------------------

  /** The `for` loop of `TryFindContinuousRange` from index `i`, with the run
      start and length it has accumulated so far (`start == -1` when none).
      Whenever that state is the one the loop keeps (the last `count` bits
      are set and `start` marks their beginning), the loop computes first fit
      from the beginning of the pending run. */
  function RunScan(b: Bitmap, num: int, i: nat, start: int, count: nat): (r: Option<int>)
    ensures num >= 1 && count < num && count <= i <= |b|
      && start == (if count == 0 then -1 else i - count)
      && (forall j | i - count <= j < i :: b[j])
      ==> r == FirstRunFrom(b, num, i - count)
    decreases |b| - i
  {
    if i >= |b| then None
    else if b[i] then
      var s := if start == -1 then i else start;
      if count + 1 == num then Some(s)
      else RunScan(b, num, i + 1, s, count + 1)
    else
      var r := RunScan(b, num, i + 1, -1, 0);
      assert num >= 1 && count < num && count <= i
        && (forall j | i - count <= j < i :: b[j])
        ==> FirstRunFrom(b, num, i - count) == FirstRunFrom(b, num, i + 1) by {
        if num >= 1 && count < num && count <= i && (forall j | i - count <= j < i :: b[j]) {
          SkipNoRuns(b, num, i - count, i + 1);
        }
      }
      r
  }

  /** Reference definition of first fit: the lowest index from `a` on that
      begins a run of `num` set bits. */
  function FirstRunFrom(b: Bitmap, num: int, a: nat): (r: Option<nat>)
    requires num >= 1
    ensures r.Some? ==> a <= r.value && RunAt(b, r.value, num)
    ensures forall t | a <= t && (r.None? || t < r.value) :: !RunAt(b, t, num)
    decreases |b| - a
  {
    if a + num > |b| then None
    else if RunAt(b, a, num) then Some(a)
    else FirstRunFrom(b, num, a + 1)
  }

  /** No run of `num` starts in `[a, c)`, so searching from `a` or from `c` agree. */
  lemma {:induction false} SkipNoRuns(b: Bitmap, num: int, a: nat, c: nat)
    requires num >= 1 && a <= c
    requires forall t | a <= t < c :: !RunAt(b, t, num)
    ensures FirstRunFrom(b, num, a) == FirstRunFrom(b, num, c)
    decreases c - a
  {
    if a < c {
      SkipNoRuns(b, num, a + 1, c);
    }
  }

  /** `TryFindContinuousRange`: the first-fit run of `num` pages inside section
      `id`, taken out of the tree. */
  function ContinuousRange(t: FreeSpaceTree, id: int, num: int): (r: Option<Allocation>)
    requires WellFormed(t) && id in t && 1 <= num
    ensures r.Some? <==> exists s :: RunAt(t[id], s, num)
    ensures r.Some? ==>
      var s := r.value.page - id * PagesInSection;
      && RunAt(t[id], s, num)
      && (forall s' | 0 <= s' < s :: !RunAt(t[id], s', num))
      && r.value.space == TakeRun(t, id, s, num)
  {
    match RunScan(t[id], num, 0, -1, 0)
    case None => None
    case Some(s) => Some(Allocation(id * PagesInSection + s, TakeRun(t, id, s, num)))
  }

  /** `TryFindSmallValueMergingTwoSections`: the trailing run `r` of section `id`
      joined with the first `num - r` pages of section `id + 1`. The callers
      reach it only when section `id` has no run of `num` pages, so `r < num`. */
  function MergeTwoSections(t: FreeSpaceTree, id: int, num: int): (res: Option<Allocation>)
    requires WellFormed(t) && id in t && EndRange(t[id]) < num
    ensures res.Some? <==>
      EndRange(t[id]) > 0 && id + 1 in t && HasStartRange(t[id + 1], num - EndRange(t[id]))
    ensures res.Some? ==>
      var r := EndRange(t[id]);
      && res.value.page == id * PagesInSection + PagesInSection - r
      && res.value.space == TakeRun(TakeRun(t, id + 1, 0, num - r), id, PagesInSection - r, r)
  {
    var r := EndRange(t[id]);
    if r == 0 || id + 1 !in t then None
    else
      var rest := num - r;
      if !HasStartRange(t[id + 1], rest) then None
      else
        var t1 := TakeRun(t, id + 1, 0, rest);
        Some(Allocation(id * PagesInSection + PagesInSection - r, TakeRun(t1, id, PagesInSection - r, r)))
  }

  /** One iteration of the `TryFindSmallValue` loop on section `id`: on a
      valid tree, whichever path succeeds takes exactly `num` free pages. */
  function SmallStep(t: FreeSpaceTree, id: int, num: int): (r: Option<Allocation>)
    requires WellFormed(t) && id in t && 1 <= num
    ensures Valid(t) && num < PagesInSection && r.Some? ==>
      Takes(t, r.value.space, r.value.page, num) && Valid(r.value.space)
  {
    MergeReachedBelowNum(t, id, num);
    var r :=
      if SetCount(t[id]) < num then
        MergeTwoSections(t, id, num)
      else
        match ContinuousRange(t, id, num)
        case Some(a) => Some(a)
        case None => MergeTwoSections(t, id, num);
    assert Valid(t) && num < PagesInSection && r.Some? ==>
      Takes(t, r.value.space, r.value.page, num) && Valid(r.value.space) by {
      if Valid(t) && num < PagesInSection && r.Some? {
        if SetCount(t[id]) < num {
          MergeSound(t, id, num);
        } else {
          var c := ContinuousRange(t, id, num);
          if c.Some? {
            TakeRunTakes(t, id, c.value.page - id * PagesInSection, num);
          } else {
            MergeSound(t, id, num);
          }
        }
      }
    }
    r
  }

  /** The merge path is only reached with a trailing run shorter than `num`:
      either the section counts fewer than `num` set bits, or it holds no run
      of `num`. */
  lemma MergeReachedBelowNum(t: FreeSpaceTree, id: int, num: int)
    requires WellFormed(t) && id in t && 1 <= num
    ensures SetCount(t[id]) < num || !(exists s :: RunAt(t[id], s, num)) ==> EndRange(t[id]) < num
  {
    var r := EndRange(t[id]);
    SetCountBound(t[id][..PagesInSection - r]);
    SetCountBound(t[id][PagesInSection - r + r..]);
    SetCountAroundRun(t[id], PagesInSection - r, r);
    if r >= num {
      assert RunAt(t[id], PagesInSection - num, num);
    }
  }

  /** `TryFindSmallValue`: visit the `pending` sections in ascending order and
      return the first step that succeeds. */
  function SmallScan(t: FreeSpaceTree, pending: set<int>, num: int): (r: Option<Allocation>)
    requires WellFormed(t) && pending <= t.Keys && 1 <= num
    ensures r.None? <==> forall id | id in pending :: SmallStep(t, id, num).None?
    ensures r.Some? ==> exists id | id in pending ::
      && r == SmallStep(t, id, num)
      && forall id' | id' in pending && id' < id :: SmallStep(t, id', num).None?
    decreases pending
  {
    if pending == {} then None
    else
      var id := Least(pending);
      var step := SmallStep(t, id, num);
      if step.Some? then step else SmallScan(t, pending - {id}, num)
  }

  // ---------------------------------------------------------------------------
  // Large allocations (a section or more)
  // ---------------------------------------------------------------------------

  /** The run of consecutive full sections `TryFindLargeValue` has accumulated:
      none, or `found` sections starting at index `start`. */
  datatype SectionRun = NoRun | Run(start: int, found: nat)

  predicate Full(t: FreeSpaceTree, id: int)
  {
    id in t && SetCount(t[id]) == PagesInSection
  }

  /** Delete sections `start .. start+k-1`. */
  function RemoveSections(t: FreeSpaceTree, start: int, k: int): (t': FreeSpaceTree)
    ensures t'.Keys == t.Keys - set id | id in t && start <= id < start + k
    ensures forall id | id in t' :: t'[id] == t[id]
  {
    map id | id in t && !(start <= id < start + k) :: t[id]
  }

  /** What the accumulated run promises: every section in it is full, and all
      of them lie below every section still to be visited. */
  ghost predicate RunInvariant(t: FreeSpaceTree, pending: set<int>, run: SectionRun, k: int)
  {
    run.Run? ==>
      && 0 < run.found < k
      && (forall id | run.start <= id < run.start + run.found :: Full(t, id))
      && (forall id | id in pending :: run.start + run.found <= id)
  }

  /** What a large allocation returns: the first page of `num / 2048` full
      sections starting at `start`; those sections are deleted, and when
      `e = num % 2048` is not zero, the first `e` pages of the next section
      are taken too. */
  ghost predicate LargeFound(t: FreeSpaceTree, num: int, a: Allocation)
    requires WellFormed(t) && num >= PagesInSection
  {
    var k := num / PagesInSection;
    var e := num % PagesInSection;
    var start := a.page / PagesInSection;
    && a.page == start * PagesInSection
    && (forall id | start <= id < start + k :: Full(t, id))
    && (e == 0 ==> a.space == RemoveSections(t, start, k))
    && (e > 0 ==>
          && start + k in t
          && HasStartRange(t[start + k], e)
          && a.space == RemoveSections(TakeRun(t, start + k, 0, e), start, k))
  }

  /** The run after visiting full section `id`: extended when `id` follows
      it, otherwise restarted at `id`. */
  function Extend(run: SectionRun, id: int): (next: SectionRun)
    ensures next.Run? && next.start + next.found == id + 1
  {
    if run.Run? && id == run.start + run.found then Run(run.start, run.found + 1) else Run(id, 1)
  }

  lemma ExtendKeepsInvariant(t: FreeSpaceTree, pending: set<int>, num: int, run: SectionRun, id: int)
    requires WellFormed(t) && pending <= t.Keys && num >= PagesInSection
    requires RunInvariant(t, pending, run, num / PagesInSection)
    requires id in pending && IsLeast(pending, id) && Full(t, id)
    ensures var next := Extend(run, id);
      && (forall x | next.start <= x < next.start + next.found :: Full(t, x))
      && (next.found != num / PagesInSection ==> RunInvariant(t, pending - {id}, next, num / PagesInSection))
  {
  }

  lemma CompletedRun(t: FreeSpaceTree, num: int, start: int)
    requires WellFormed(t) && num >= PagesInSection
    requires forall x | start <= x < start + num / PagesInSection :: Full(t, x)
    ensures num % PagesInSection == 0 ==>
      LargeFound(t, num, Allocation(start * PagesInSection, RemoveSections(t, start, num / PagesInSection)))
    ensures num % PagesInSection > 0 && start + num / PagesInSection in t
            && HasStartRange(t[start + num / PagesInSection], num % PagesInSection) ==>
      LargeFound(t, num, Allocation(start * PagesInSection,
        RemoveSections(TakeRun(t, start + num / PagesInSection, 0, num % PagesInSection), start, num / PagesInSection)))
  {
    assert (start * PagesInSection) / PagesInSection == start;
  }

  /** `TryFindLargeValue`: scan the `pending` sections in ascending order for
      `num / 2048` consecutive full sections followed, when `num % 2048 > 0`,
      by a section whose first `num % 2048` pages are free. Any section that
      breaks the run discards it entirely. */
  function LargeScan(t: FreeSpaceTree, pending: set<int>, num: int, run: SectionRun): (r: Option<Allocation>)
    requires WellFormed(t) && pending <= t.Keys && num >= PagesInSection
    requires RunInvariant(t, pending, run, num / PagesInSection)
    ensures r.Some? ==> LargeFound(t, num, r.value)
    decreases pending
  {
    var k := num / PagesInSection;
    var e := num % PagesInSection;
    if pending == {} then None
    else
      var id := Least(pending);
      var rest := pending - {id};
      SetCountBound(t[id]);
      if SetCount(t[id]) < PagesInSection then
        LargeScan(t, rest, num, NoRun)
      else
        var next := Extend(run, id);
        ExtendKeepsInvariant(t, pending, num, run, id);
        if next.found != k then
          LargeScan(t, rest, num, next)
        else
          var start := next.start;
          CompletedRun(t, num, start);
          if e == 0 then
            Some(Allocation(start * PagesInSection, RemoveSections(t, start, k)))
          else if id + 1 !in t || !HasStartRange(t[id + 1], e) then
            LargeScan(t, rest, num, NoRun)
          else
            Some(Allocation(start * PagesInSection, RemoveSections(TakeRun(t, id + 1, 0, e), start, k)))
  }

  // ---------------------------------------------------------------------------
  // Entry point
  // ---------------------------------------------------------------------------

  /** `TryAllocateFromFreeSpace`: no free-space tree, an empty one, or an
      iterator that cannot seek yields nothing; otherwise requests below a
      section take the small path and the rest the large path. */
  function TryAllocate(root: Option<FreeSpaceTree>, num: int): (r: Option<Allocation>)
    requires root.Some? ==> Valid(root.value)
    requires num >= 1
    ensures root.None? || |root.value| == 0 ==> r.None?
    ensures r.Some? ==> Takes(root.value, r.value.space, r.value.page, num) && Valid(r.value.space)
  {
    if root.None? then None
    else
      var t := root.value;
      if |t| == 0 then None
      else if num < PagesInSection then
        SmallScanSound(t, num);
        SmallScan(t, t.Keys, num)
      else
        LargeScanSound(t, num);
        LargeScan(t, t.Keys, num, NoRun)
  }

  // ---------------------------------------------------------------------------
  // Soundness of the allocation paths
  // ---------------------------------------------------------------------------

  /** Taking a run from one section is a sound allocation of those pages. */
  lemma TakeRunTakes(t: FreeSpaceTree, id: int, s: int, n: int)
    requires WellFormed(t) && id in t && RunAt(t[id], s, n) && n >= 1
    ensures Takes(t, TakeRun(t, id, s, n), id * PagesInSection + s, n)
    ensures WellFormed(TakeRun(t, id, s, n))
    ensures NoEmptySection(t) ==> NoEmptySection(TakeRun(t, id, s, n))
  {
    var t' := TakeRun(t, id, s, n);
    forall id', j | 0 <= j < PagesInSection
      ensures FreeAt(t', id', j) == (FreeAt(t, id', j) && !(id * PagesInSection + s <= id' * PagesInSection + j < id * PagesInSection + s + n))
    {
      if id' < id {
        assert id' * PagesInSection + j < id * PagesInSection;
      } else if id' > id {
        assert id' * PagesInSection + j >= id * PagesInSection + PagesInSection;
      }
    }
    forall id', j | 0 <= j < PagesInSection && id * PagesInSection + s <= id' * PagesInSection + j < id * PagesInSection + s + n
      ensures FreeAt(t, id', j)
    {
      SameSection(id, s, n, id', j);
    }
  }

  lemma SmallScanSound(t: FreeSpaceTree, num: int)
    requires Valid(t) && 1 <= num < PagesInSection
    ensures var r := SmallScan(t, t.Keys, num);
      r.Some? ==> Takes(t, r.value.space, r.value.page, num) && Valid(r.value.space)
  {
    var r := SmallScan(t, t.Keys, num);
    if r.Some? {
      SmallSound(t, r.value, num);
    }
  }

  lemma LargeScanSound(t: FreeSpaceTree, num: int)
    requires Valid(t) && num >= PagesInSection
    ensures var r := LargeScan(t, t.Keys, num, NoRun);
      r.Some? ==> Takes(t, r.value.space, r.value.page, num) && Valid(r.value.space)
  {
    var r := LargeScan(t, t.Keys, num, NoRun);
    if r.Some? {
      LargeSound(t, r.value, num);
    }
  }

  /** A page of a run inside section `id` lies in section `id`. */
  lemma SameSection(id: int, s: int, n: int, id': int, j: int)
    requires 0 <= s && s + n <= PagesInSection && 0 <= j < PagesInSection
    requires id * PagesInSection + s <= id' * PagesInSection + j < id * PagesInSection + s + n
    ensures id' == id && s <= j < s + n
  {
  }

  lemma SmallSound(t: FreeSpaceTree, a: Allocation, num: int)
    requires Valid(t) && 1 <= num < PagesInSection
    requires exists id | id in t :: Some(a) == SmallStep(t, id, num)
    ensures Takes(t, a.space, a.page, num) && Valid(a.space)
  {
    var id :| id in t && Some(a) == SmallStep(t, id, num);
  }

  lemma MergeSound(t: FreeSpaceTree, id: int, num: int)
    requires Valid(t) && id in t && EndRange(t[id]) < num
    requires MergeTwoSections(t, id, num).Some?
    ensures var a := MergeTwoSections(t, id, num).value;
      Takes(t, a.space, a.page, num) && Valid(a.space)
  {
    var r := EndRange(t[id]);
    var t1 := TakeRun(t, id + 1, 0, num - r);
    TakeRunTakes(t, id + 1, 0, num - r);
    assert t1[id] == t[id];
    TakeRunTakes(t1, id, PagesInSection - r, r);
    var t2 := TakeRun(t1, id, PagesInSection - r, r);
    var page := id * PagesInSection + PagesInSection - r;
    forall id', j | 0 <= j < PagesInSection
      ensures FreeAt(t2, id', j) == (FreeAt(t, id', j) && !(page <= id' * PagesInSection + j < page + num))
    {
    }
    forall id', j | 0 <= j < PagesInSection && page <= id' * PagesInSection + j < page + num
      ensures FreeAt(t, id', j)
    {
      if id' * PagesInSection + j < page + r {
        assert FreeAt(t1, id', j);
      } else {
        assert FreeAt(t, id', j);
      }
    }
  }

  lemma FullSectionFree(t: FreeSpaceTree, id: int, j: int)
    requires WellFormed(t) && Full(t, id) && 0 <= j < PagesInSection
    ensures FreeAt(t, id, j)
  {
    if !t[id][j] {
      var b := t[id];
      assert b == b[..j] + [b[j]] + b[j + 1..];
      SetCountAppend(b[..j] + [b[j]], b[j + 1..]);
      SetCountAppend(b[..j], [b[j]]);
      SetCountBound(b[..j]);
      SetCountBound(b[j + 1..]);
      assert false;
    }
  }

  lemma LargeSound(t: FreeSpaceTree, a: Allocation, num: int)
    requires Valid(t) && num >= PagesInSection
    requires Some(a) == LargeScan(t, t.Keys, num, NoRun)
    ensures Takes(t, a.space, a.page, num) && Valid(a.space)
  {
    var k := num / PagesInSection;
    var e := num % PagesInSection;
    var start := a.page / PagesInSection;
    assert num == k * PagesInSection + e;
    var t1 := if e == 0 then t else TakeRun(t, start + k, 0, e);
    if e > 0 {
      TakeRunTakes(t, start + k, 0, e);
    }
    assert a.space == RemoveSections(t1, start, k);
    forall id, j | 0 <= j < PagesInSection && a.page <= id * PagesInSection + j < a.page + num
      ensures FreeAt(t, id, j)
    {
      if id < start + k {
        assert start <= id;
        FullSectionFree(t, id, j);
      } else {
        assert id == start + k;
      }
    }
    forall id, j | 0 <= j < PagesInSection
      ensures FreeAt(a.space, id, j) == (FreeAt(t, id, j) && !(a.page <= id * PagesInSection + j < a.page + num))
    {
      if start <= id < start + k {
        assert a.page <= id * PagesInSection + j < a.page + num;
      } else if id < start {
        assert id * PagesInSection + j < a.page;
      } else if id > start + k {
        assert id * PagesInSection + j >= a.page + num;
      }
    }
  }

  // ---------------------------------------------------------------------------
  // Page-level consequences, completeness and the round trip with freeing
  // ---------------------------------------------------------------------------

  /** `Takes` read page by page: the allocated pages were free and are no
      longer, and every other page keeps its state. */
  lemma TakesPages(t: FreeSpaceTree, t': FreeSpaceTree, page: int, num: int, q: int)
    requires Takes(t, t', page, num)
    ensures page <= q < page + num && q >= 0 ==> IsFree(t, q) && !IsFree(t', q)
    ensures !(page <= q < page + num) ==> IsFree(t', q) == IsFree(t, q)
  {
    if q >= 0 {
      var id, j := q / PagesInSection, q % PagesInSection;
      assert id * PagesInSection + j == q;
      assert FreeAt(t', id, j) == (FreeAt(t, id, j) && !(page <= id * PagesInSection + j < page + num));
    }
  }

  /** Free the `n` pages `p .. p+n-1`, one `FreePage` call each. */
  function FreePages(t: FreeSpaceTree, p: nat, n: nat): (t': FreeSpaceTree)
    requires WellFormed(t)
    ensures WellFormed(t')
    decreases n
  {
    if n == 0 then t else FreePages(FreePage(t, p), p + 1, n - 1)
  }

  lemma {:induction false} FreePagesMarks(t: FreeSpaceTree, p: nat, n: nat, q: int)
    requires WellFormed(t)
    ensures IsFree(FreePages(t, p, n), q) <==> IsFree(t, q) || p <= q < p + n
    decreases n
  {
    if n > 0 {
      FreePagesMarks(FreePage(t, p), p + 1, n - 1, q);
      FreePageMarksOnlyThatPage(t, p, q);
    }
  }

  /** An allocation starts at a page that was free, so never below zero. */
  lemma TakesStartsAtFreePage(t: FreeSpaceTree, t': FreeSpaceTree, page: int, num: int)
    requires WellFormed(t) && Takes(t, t', page, num) && num >= 1
    ensures page >= 0
  {
    var id, j := page / PagesInSection, page % PagesInSection;
    assert id * PagesInSection + j == page;
    assert FreeAt(t, id, j);
  }

  lemma TakesThenFreeRestores(t: FreeSpaceTree, t': FreeSpaceTree, page: nat, num: nat, q: int)
    requires WellFormed(t') && Takes(t, t', page, num)
    ensures IsFree(FreePages(t', page, num), q) <==> IsFree(t, q)
  {
    FreePagesMarks(t', page, num, q);
    TakesPages(t, t', page, num, q);
  }

  /** Allocation round trip: freeing the pages an allocation returned gives
      back exactly the free pages the tree had before. */
  lemma AllocateThenFreeRestores(t: FreeSpaceTree, num: int, q: int)
    requires Valid(t) && num >= 1
    requires TryAllocate(Some(t), num).Some?
    ensures var a := TryAllocate(Some(t), num).value;
      a.page >= 0 && (IsFree(FreePages(a.space, a.page, num), q) <==> IsFree(t, q))
  {
    var a := TryAllocate(Some(t), num).value;
    TakesStartsAtFreePage(t, a.space, a.page, num);
    TakesThenFreeRestores(t, a.space, a.page, num, q);
  }

  /** A run of `num` pages inside one section is never missed by the small
      path: it then always returns an allocation. */
  lemma SmallFindsInSectionFit(t: FreeSpaceTree, num: int, id: int, s: int)
    requires Valid(t) && 1 <= num < PagesInSection
    requires id in t && RunAt(t[id], s, num)
    ensures TryAllocate(Some(t), num).Some?
  {
    SetCountAroundRun(t[id], s, num);
    assert SmallStep(t, id, num).Some?;
  }

  /** A request below a section size never fails while some section's
      trailing run, shorter than the request, is completed by the leading run
      of the next section. */
  lemma SmallFindsMergeFit(t: FreeSpaceTree, num: int, id: int)
    requires Valid(t) && 1 <= num < PagesInSection
    requires id in t && 0 < EndRange(t[id]) < num
    requires id + 1 in t && HasStartRange(t[id + 1], num - EndRange(t[id]))
    ensures TryAllocate(Some(t), num).Some?
  {
    assert SmallStep(t, id, num).Some?;
  }

  /** Freeing a page and then asking for one page always succeeds; on an empty
      tree it hands back exactly the freed page and leaves the tree empty. */
  lemma FreeThenAllocateOne(t: FreeSpaceTree, p: nat)
    requires Valid(t)
    ensures TryAllocate(Some(FreePage(t, p)), 1).Some?
    ensures t == map[] ==> TryAllocate(Some(FreePage(t, p)), 1) == Some(Allocation(p, map[]))
  {
    var t' := FreePage(t, p);
    var id, j := p / PagesInSection, p % PagesInSection;
    assert RunAt(t'[id], j, 1);
    SmallFindsInSectionFit(t', 1, id, j);
    if t == map[] {
      assert t'.Keys == {id};
      var r := SmallScan(t', t'.Keys, 1);
      assert SmallStep(t', id, 1) == r;
      var c := ContinuousRange(t', id, 1);
      var s := c.value.page - id * PagesInSection;
      assert t'[id] == Zeros(PagesInSection)[j := true];
      assert t'[id][s];
      assert s == j;
      assert SetCount(t'[id]) == 1 by {
        OnlyRunSetConverse(t'[id], j);
      }
    }
  }

  /** A bitmap with exactly one set bit counts one. */
  lemma OnlyRunSetConverse(b: Bitmap, j: int)
    requires 0 <= j < |b| && b[j]
    requires forall i | 0 <= i < |b| && i != j :: !b[i]
    ensures SetCount(b) == 1
  {
    SetCountAroundRun(b, j, 1);
    SetCountZeros(b[..j]);
    SetCountZeros(b[j + 1..]);
  }

  /** A full section offers a leading run of any length up to a section. */
  lemma FullHasStartRange(t: FreeSpaceTree, id: int, e: int)
    requires WellFormed(t) && Full(t, id) && 0 <= e <= PagesInSection
    ensures HasStartRange(t[id], e)
  {
    forall j | 0 <= j < e ensures t[id][j] {
      FullSectionFree(t, id, j);
    }
  }

  /** Completeness of the large path, in spite of its resets: whenever `k`
      consecutive full sections exist, followed (for a remainder `e > 0`) by a
      section whose first `e` pages are free, the scan returns an allocation.
      `c` counts the leading sections of that block the scan has already passed,
      all of which then belong to the run it carries. */
  lemma {:induction false} LargeScanComplete(t: FreeSpaceTree, pending: set<int>, num: int, run: SectionRun, s: int, c: int)
    requires WellFormed(t) && pending <= t.Keys && num >= PagesInSection
    requires RunInvariant(t, pending, run, num / PagesInSection)
    requires forall id | s <= id < s + num / PagesInSection :: Full(t, id)
    requires num % PagesInSection > 0 ==>
               s + num / PagesInSection in t && HasStartRange(t[s + num / PagesInSection], num % PagesInSection)
    requires 0 <= c < num / PagesInSection
    requires forall id | s + c <= id < s + num / PagesInSection :: id in pending
    requires c > 0 ==> run.Run? && run.start + run.found == s + c && run.found >= c
    ensures LargeScan(t, pending, num, run).Some?
    decreases pending
  {
    var k := num / PagesInSection;
    var e := num % PagesInSection;
    assert s + c in pending;
    var id := Least(pending);
    var rest := pending - {id};
    SetCountBound(t[id]);
    if id < s + c {
      assert c == 0;
      if LargeScan(t, pending, num, run).None? {
        var r' := if SetCount(t[id]) < PagesInSection then NoRun
                  else
                    var follows := run.Run? && id == run.start + run.found;
                    var start := if follows then run.start else id;
                    var found := if follows then run.found + 1 else 1;
                    if found != k then Run(start, found) else NoRun;
        LargeScanComplete(t, rest, num, r', s, 0);
      }
    } else {
      assert id == s + c;
      var follows := run.Run? && id == run.start + run.found;
      var start := if follows then run.start else id;
      var found := if follows then run.found + 1 else 1;
      assert Full(t, id);
      if found != k {
        assert LargeScan(t, pending, num, run) == LargeScan(t, rest, num, Run(start, found));
        LargeScanComplete(t, rest, num, Run(start, found), s, c + 1);
      } else if e > 0 {
        if c + 1 < k {
          FullHasStartRange(t, id + 1, e);
        }
      }
    }
  }

  /** Top-level completeness of the large path. */
  lemma LargeFindsFullSections(t: FreeSpaceTree, num: int, s: int)
    requires Valid(t) && num >= PagesInSection
    requires forall id | s <= id < s + num / PagesInSection :: Full(t, id)
    requires num % PagesInSection > 0 ==>
               s + num / PagesInSection in t && HasStartRange(t[s + num / PagesInSection], num % PagesInSection)
    ensures TryAllocate(Some(t), num).Some?
  {
    forall id | s <= id < s + num / PagesInSection ensures id in t.Keys {
      assert Full(t, id);
    }
    LargeScanComplete(t, t.Keys, num, NoRun, s, 0);
  }

  // ---------------------------------------------------------------------------
  // Section keys
  // ---------------------------------------------------------------------------

  /** The last `n` bytes of `x` in big-endian order, most significant first. */
  function BigEndian(x: int, n: nat): (bytes: seq<int>)
    ensures |bytes| == n
    ensures forall i | 0 <= i < n :: 0 <= bytes[i] < 256
    decreases n
  {
    if n == 0 then [] else BigEndian(x / 256, n - 1) + [x % 256]
  }

  /** The key a section is stored under: its index as 8 big-endian bytes. */
  function SectionKey(id: int): seq<int>
  {
    BigEndian(id, 8)
  }

  /** Byte-wise comparison of keys, the first differing byte deciding. */
  predicate KeyLess(a: seq<int>, b: seq<int>)
  {
    |b| > 0 && (|a| == 0 || a[0] < b[0] || (a[0] == b[0] && KeyLess(a[1..], b[1..])))
  }

  function Pow256(n: nat): nat
  {
    if n == 0 then 1 else 256 * Pow256(n - 1)
  }

  /** Appending one byte to keys of equal length: the prefixes decide unless
      they are equal. */
  lemma {:induction false} KeyLessAppend(a: seq<int>, b: seq<int>, x: int, y: int)
    requires |a| == |b|
    ensures KeyLess(a + [x], b + [y]) <==> KeyLess(a, b) || (a == b && x < y)
    decreases |a|
  {
    if |a| > 0 {
      assert (a + [x])[1..] == a[1..] + [x];
      assert (b + [y])[1..] == b[1..] + [y];
      KeyLessAppend(a[1..], b[1..], x, y);
      if a[0] == b[0] && a[1..] == b[1..] {
        assert a == [a[0]] + a[1..] && b == [b[0]] + b[1..];
      }
    }
  }

  /** Big-endian encodings of numbers that fit are equal only for equal
      numbers, and compare as the numbers do. */
  lemma {:induction false} BigEndianOrder(a: int, b: int, n: nat)
    requires 0 <= a < Pow256(n) && 0 <= b < Pow256(n)
    ensures BigEndian(a, n) == BigEndian(b, n) <==> a == b
    ensures KeyLess(BigEndian(a, n), BigEndian(b, n)) <==> a < b
    decreases n
  {
    if n > 0 {
      BigEndianOrder(a / 256, b / 256, n - 1);
      KeyLessAppend(BigEndian(a / 256, n - 1), BigEndian(b / 256, n - 1), a % 256, b % 256);
      if BigEndian(a, n) == BigEndian(b, n) {
        assert BigEndian(a / 256, n - 1) == BigEndian(a, n)[..n - 1];
        assert BigEndian(b / 256, n - 1) == BigEndian(b, n)[..n - 1];
        assert a % 256 == BigEndian(a, n)[n - 1];
      }
    }
  }

  /** Section keys sort as the section indexes do, so visiting the tree in key
      order visits sections in ascending index order. */
  lemma SectionKeyOrder(a: int, b: int)
    requires 0 <= a < Pow256(8) && 0 <= b < Pow256(8)
    ensures KeyLess(SectionKey(a), SectionKey(b)) <==> a < b
    ensures SectionKey(a) == SectionKey(b) <==> a == b
  {
    BigEndianOrder(a, b, 8);
  }
}
