/** The mutable bookkeeping of one B+tree: page counters, depth, entry count,
    root page and the modification flag guarded by the write transaction. */
module TreeState {
  import opened Wrappers

  /** The per-tree state. `flags` is the raw value of the tree's flags. The
      last two fields are transient: they are never persisted. */
  datatype TreeMutableState = TreeMutableState(
    branchPages: int,
    leafPages: int,
    overflowPages: int,
    depth: int,
    pageCount: int,
    entriesCount: int,
    flags: int,
    keysPrefixing: bool,
    rootPageNumber: int,
    isModified: bool,
    inWriteTransaction: bool)

  /** The persisted image of a tree's state in its parent's root header. */
  datatype TreeRootHeader = TreeRootHeader(
    flags: int,
    branchPages: int,
    depth: int,
    leafPages: int,
    overflowPages: int,
    pageCount: int,
    entriesCount: int,
    rootPageNumber: int,
    keysPrefixing: bool)

  /** The flags of a page; a page may carry several of them. */
  datatype PageFlags = PageFlags(branch: bool, leaf: bool, overflow: bool)

  /** The counter a new page is charged to, checked Branch, then Leaf, then
      Overflow. */
  datatype PageKind = BranchPage | LeafPage | OverflowPage | OtherPage

  function KindOf(f: PageFlags): (k: PageKind)
    ensures k == BranchPage <==> f.branch
    ensures k == LeafPage <==> !f.branch && f.leaf
    ensures k == OverflowPage <==> !f.branch && !f.leaf && f.overflow
  {
    if f.branch then BranchPage
    else if f.leaf then LeafPage
    else if f.overflow then OverflowPage
    else OtherPage
  }

  /** The state with its transient fields cleared. */
  function Persistent(s: TreeMutableState): TreeMutableState
  {
    s.(isModified := false, inWriteTransaction := false)
  }

  /** `RecordNewPage(p, num)`: one more page in the tree, charged to the first
      counter its flags select; an overflow value adds its `num` pages. */
  function RecordNewPage(s: TreeMutableState, f: PageFlags, num: int): (s': TreeMutableState)
    ensures s'.pageCount == s.pageCount + 1
    ensures s'.branchPages == s.branchPages + (if KindOf(f) == BranchPage then 1 else 0)
    ensures s'.leafPages == s.leafPages + (if KindOf(f) == LeafPage then 1 else 0)
    ensures s'.overflowPages == s.overflowPages + (if KindOf(f) == OverflowPage then num else 0)
    ensures s'.(pageCount := s.pageCount, branchPages := s.branchPages,
                leafPages := s.leafPages, overflowPages := s.overflowPages) == s
  {
    var s1 := s.(pageCount := s.pageCount + 1);
    if f.branch then s1.(branchPages := s.branchPages + 1)
    else if f.leaf then s1.(leafPages := s.leafPages + 1)
    else if f.overflow then s1.(overflowPages := s.overflowPages + num)
    else s1
  }

  /** The page count is the sum of the three kind counters. */
  predicate Balanced(s: TreeMutableState)
  {
    s.pageCount == s.branchPages + s.leafPages + s.overflowPages
  }

  /** Recording a page keeps the counters balanced exactly when the page is
      charged to a counter and, for an overflow value, when it is a single
      page: `RecordNewPage` counts an overflow value once in `PageCount` but
      `num` times in `OverflowPages`. */
  lemma RecordNewPageBalance(s: TreeMutableState, f: PageFlags, num: int)
    requires Balanced(s)
    ensures Balanced(RecordNewPage(s, f, num)) <==>
      KindOf(f) != OtherPage && (KindOf(f) == OverflowPage ==> num == 1)
  {
  }

  /** `Clone`: the nine persisted fields, outside any write transaction and
      not modified. */
  function Clone(s: TreeMutableState): (c: TreeMutableState)
    ensures !c.isModified && !c.inWriteTransaction
    ensures c == Persistent(s)
  {
    TreeMutableState(s.branchPages, s.leafPages, s.overflowPages, s.depth, s.pageCount,
                     s.entriesCount, s.flags, s.keysPrefixing, s.rootPageNumber, false, false)
  }

  /** `CopyTo`: the persisted image of the state, every persisted field
      copied unchanged into the header field of the same name. */
  function CopyTo(s: TreeMutableState): (h: TreeRootHeader)
    ensures h.pageCount == s.pageCount && h.rootPageNumber == s.rootPageNumber
    ensures h.flags == s.flags && h.keysPrefixing == s.keysPrefixing
    ensures h.branchPages == s.branchPages && h.leafPages == s.leafPages && h.overflowPages == s.overflowPages
    ensures h.depth == s.depth && h.entriesCount == s.entriesCount
  {
    TreeRootHeader(s.flags, s.branchPages, s.depth, s.leafPages, s.overflowPages,
                   s.pageCount, s.entriesCount, s.rootPageNumber, s.keysPrefixing)
  }

  /** A tree state read back from its root header. */
  function FromHeader(h: TreeRootHeader): TreeMutableState
  {
    TreeMutableState(h.branchPages, h.leafPages, h.overflowPages, h.depth, h.pageCount,
                     h.entriesCount, h.flags, h.keysPrefixing, h.rootPageNumber, false, false)
  }

  /** The root header loses exactly the transient fields: two states have the
      same header if and only if they agree on everything else, and reading
      the header back gives the clone. */
  lemma CopyToKeepsPersistentFields(s: TreeMutableState, t: TreeMutableState)
    ensures CopyTo(s) == CopyTo(t) <==> Persistent(s) == Persistent(t)
    ensures FromHeader(CopyTo(s)) == Clone(s)
  {
  }

  /** A clone persists as its original does, and cloning twice is cloning once. */
  lemma CloneThenCopyTo(s: TreeMutableState)
    ensures CopyTo(Clone(s)) == CopyTo(s)
    ensures Clone(Clone(s)) == Clone(s)
  {
  }

  datatype StateError = OutsideWriteTransaction

  /** The `IsModified` setter: refused outside a write transaction. */
  function SetIsModified(s: TreeMutableState, value: bool): (r: Result<TreeMutableState, StateError>)
    ensures r.Err? <==> !s.inWriteTransaction
    ensures r.Ok? ==> r.value.isModified == value && r.value.(isModified := s.isModified) == s
  {
    if !s.inWriteTransaction then Err(OutsideWriteTransaction) else Ok(s.(isModified := value))
  }

  /** The modification flag is never persisted, and a later assignment
      replaces an earlier one. */
  lemma SetIsModifiedIsTransient(s: TreeMutableState, a: bool, b: bool)
    requires s.inWriteTransaction
    ensures CopyTo(SetIsModified(s, a).value) == CopyTo(s)
    ensures SetIsModified(SetIsModified(s, a).value, b) == SetIsModified(s, b)
  {
  }

  /** A clone is outside any write transaction, so it refuses the setter. */
  lemma CloneRefusesModification(s: TreeMutableState, value: bool)
    ensures SetIsModified(Clone(s), value) == Err(OutsideWriteTransaction)
  {
  }
}
