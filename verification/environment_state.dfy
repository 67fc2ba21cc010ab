/** The environment-wide state a transaction starts from: the root tree, the
    free-space tree, the options and the next page number, and the rules by
    which a transaction finds a tree by name. */
module EnvironmentState {
  import opened Wrappers

  const RootTreeName: string := "Root"
  const FreeSpaceTreeName: string := "Free Space"

  /** `Tree` is a tree reference and `Options` the environment options;
      `None` is a null reference. */
  datatype EnvState<Tree, Options> = EnvState(
    root: Option<Tree>,
    freeSpaceRoot: Option<Tree>,
    options: Option<Options>,
    nextPageNumber: int)

  /** The three-argument constructor; the options stay unset. */
  function NewState<Tree, Options>(freeSpaceRoot: Option<Tree>, root: Option<Tree>, nextPageNumber: int): (s: EnvState<Tree, Options>)
    ensures s.freeSpaceRoot == freeSpaceRoot && s.root == root && s.nextPageNumber == nextPageNumber
    ensures s.options.None?
  {
    EnvState(root, freeSpaceRoot, None, nextPageNumber)
  }

  /** A tree reference replaced by its clone; null stays null. */
  function CloneTree<Tree>(t: Option<Tree>, cloneTree: Tree -> Tree): (r: Option<Tree>)
    ensures r.None? <==> t.None?
    ensures t.Some? ==> r.value == cloneTree(t.value)
  {
    match t
    case None => None
    case Some(tree) => Some(cloneTree(tree))
  }

  /** `Clone(tx)`: both trees cloned by `cloneTree` (the tree's own `Clone`),
      the next page number and the options shared. */
  function Clone<Tree, Options>(s: EnvState<Tree, Options>, cloneTree: Tree -> Tree): (c: EnvState<Tree, Options>)
    ensures c.root == CloneTree(s.root, cloneTree)
    ensures c.freeSpaceRoot == CloneTree(s.freeSpaceRoot, cloneTree)
    ensures c.nextPageNumber == s.nextPageNumber && c.options == s.options
  {
    EnvState(CloneTree(s.root, cloneTree), CloneTree(s.freeSpaceRoot, cloneTree), s.options, s.nextPageNumber)
  }

  /** Cloning with the identity gives back the same state, and cloning twice
      clones each tree twice. */
  lemma CloneComposes<Tree, Options>(s: EnvState<Tree, Options>, f: Tree -> Tree, g: Tree -> Tree)
    ensures Clone(s, t => t) == s
    ensures Clone(Clone(s, f), g) == Clone(s, t => g(f(t)))
  {
    match s.root {
      case None =>
      case Some(r) => assert CloneTree(s.root, t => g(f(t))) == Some(g(f(r)));
    }
    match s.freeSpaceRoot {
      case None =>
      case Some(r) => assert CloneTree(s.freeSpaceRoot, t => g(f(t))) == Some(g(f(r)));
    }
  }

  // ---------------------------------------------------------------------------
  // Tree names compared without regard to case
  // ---------------------------------------------------------------------------

  /** Upper-case ASCII letters mapped to lower case. */
  function FoldCase(c: char): (d: char)
    ensures 'A' <= c <= 'Z' ==> 'a' <= d <= 'z'
    ensures !('A' <= c <= 'Z') ==> d == c
  {
    if 'A' <= c <= 'Z' then (c as int - 'A' as int + 'a' as int) as char else c
  }

  /** `c` and `d` are the same character, or the same ASCII letter in its two
      cases. */
  predicate SameLetter(c: char, d: char)
  {
    || c == d
    || (c as int - d as int == 'a' as int - 'A' as int && 'A' <= d <= 'Z')
    || (d as int - c as int == 'a' as int - 'A' as int && 'A' <= c <= 'Z')
  }

  /** Case folding maps two characters together only when they are the same
      letter. */
  lemma FoldCaseSameLetter(c: char, d: char)
    ensures FoldCase(c) == FoldCase(d) <==> SameLetter(c, d)
  {
  }

  /** Two names equal when case is ignored: same length, and position by
      position the same letter up to case. */
  function EqualsIgnoreCase(a: string, b: string): (r: bool)
    ensures r <==> |a| == |b| && forall i | 0 <= i < |a| :: SameLetter(a[i], b[i])
  {
    var r := |a| == |b| && forall i | 0 <= i < |a| :: FoldCase(a[i]) == FoldCase(b[i]);
    assert r <==> |a| == |b| && forall i | 0 <= i < |a| :: SameLetter(a[i], b[i]) by {
      forall i | 0 <= i < |a| && i < |b| {
        FoldCaseSameLetter(a[i], b[i]);
      }
    }
    r
  }

  /** Ignoring case is an equivalence relation. */
  lemma EqualsIgnoreCaseIsEquivalence(a: string, b: string, c: string)
    ensures EqualsIgnoreCase(a, a)
    ensures EqualsIgnoreCase(a, b) ==> EqualsIgnoreCase(b, a)
    ensures EqualsIgnoreCase(a, b) && EqualsIgnoreCase(b, c) ==> EqualsIgnoreCase(a, c)
  {
  }

  // ---------------------------------------------------------------------------
  // GetTree
  // ---------------------------------------------------------------------------

  datatype TransactionFlags = ReadOnly | ReadWrite

  /** What `GetTree` needs of its transaction: its flags and the trees it has
      already opened (`tx.ReadTree`). */
  datatype TxView<Tree> = TxView(flags: TransactionFlags, openTrees: map<string, Tree>)

  datatype TreeError =
    | EmptyTreeName
    | NoSuchTree(message: string)
    | NullOptions

  /** The tree environment operations `GetTree` calls: the environment's
      `CreateTree` and the options' `ShouldUseKeyPrefix`. */
  datatype TreeFactory<Tree, !Options> = TreeFactory(
    createTree: (string, bool) -> Tree,
    shouldUseKeyPrefix: (Options, string) -> bool)

  /** `GetTree(tx, treeName)`; `None` for `treeName` is a null string, and an
      `Ok(None)` result is a null tree (an unset root). */
  function GetTree<Tree, Options>(s: EnvState<Tree, Options>, tx: TxView<Tree>, f: TreeFactory<Tree, Options>, treeName: Option<string>): (r: Result<Option<Tree>, TreeError>)
    ensures r == Err(EmptyTreeName) <==> treeName.None? || treeName.value == ""
    ensures treeName.Some? && treeName.value != "" && treeName.value in tx.openTrees ==> r == Ok(Some(tx.openTrees[treeName.value]))
    ensures r.Err? && r.error.NoSuchTree? ==> tx.flags.ReadOnly?
  {
    if treeName.None? || treeName.value == "" then Err(EmptyTreeName)
    else
      var name := treeName.value;
      if name in tx.openTrees then Ok(Some(tx.openTrees[name]))
      else if EqualsIgnoreCase(name, RootTreeName) then Ok(s.root)
      else if EqualsIgnoreCase(name, FreeSpaceTreeName) then Ok(s.freeSpaceRoot)
      else if tx.flags.ReadWrite? then
        if s.options.None? then Err(NullOptions)
        else Ok(Some(f.createTree(name, f.shouldUseKeyPrefix(s.options.value, name))))
      else Err(NoSuchTree("No such tree: " + name))
  }

  /** The names of the two built-in trees, in any case, select them unless the
      transaction has opened a tree of exactly that name. */
  lemma BuiltInTreesIgnoreCase<Tree, Options>(s: EnvState<Tree, Options>, tx: TxView<Tree>, f: TreeFactory<Tree, Options>, name: string)
    requires name !in tx.openTrees
    ensures EqualsIgnoreCase(name, RootTreeName) ==> GetTree(s, tx, f, Some(name)) == Ok(s.root)
    ensures EqualsIgnoreCase(name, FreeSpaceTreeName) ==> GetTree(s, tx, f, Some(name)) == Ok(s.freeSpaceRoot)
  {
    assert RootTreeName != "" && FreeSpaceTreeName != "";
    if EqualsIgnoreCase(name, FreeSpaceTreeName) {
      assert |name| != |RootTreeName|;
    }
  }

  /** Any other name the transaction has not opened: a read-write transaction
      creates the tree with the key-prefix setting the options choose for it;
      a read transaction fails with "No such tree: " and the name. */
  lemma OtherNamesCreateOrFail<Tree, Options>(s: EnvState<Tree, Options>, tx: TxView<Tree>, f: TreeFactory<Tree, Options>, name: string)
    requires name != "" && name !in tx.openTrees
    requires !EqualsIgnoreCase(name, RootTreeName) && !EqualsIgnoreCase(name, FreeSpaceTreeName)
    ensures tx.flags == ReadWrite && s.options.Some? ==>
      GetTree(s, tx, f, Some(name)) == Ok(Some(f.createTree(name, f.shouldUseKeyPrefix(s.options.value, name))))
    ensures tx.flags == ReadOnly ==>
      GetTree(s, tx, f, Some(name)) == Err(NoSuchTree("No such tree: " + name))
  {
  }

  /** A read transaction asked for a tree nobody created: the message names
      the tree. */
  lemma ReadingMissingTreeFails<Tree, Options>(s: EnvState<Tree, Options>, f: TreeFactory<Tree, Options>)
    ensures GetTree(s, TxView(ReadOnly, map[]), f, Some("test")) == Err(NoSuchTree("No such tree: test"))
  {
    assert !EqualsIgnoreCase("test", RootTreeName) by {
      assert "test"[0] == 't' && RootTreeName[0] == 'R';
      assert FoldCase("test"[0]) != FoldCase(RootTreeName[0]);
    }
    assert !EqualsIgnoreCase("test", FreeSpaceTreeName) by { assert |FreeSpaceTreeName| == 10; }
    assert "No such tree: " + "test" == "No such tree: test";
  }

  /** A cloned state answers `GetTree` for the built-in trees with the clones
      of the original's trees. */
  lemma CloneServesClonedBuiltIns<Tree, Options>(s: EnvState<Tree, Options>, cloneTree: Tree -> Tree, tx: TxView<Tree>, f: TreeFactory<Tree, Options>, name: string)
    requires name != "" && name !in tx.openTrees
    requires EqualsIgnoreCase(name, RootTreeName) || EqualsIgnoreCase(name, FreeSpaceTreeName)
    ensures GetTree(s, tx, f, Some(name)).Ok?
    ensures GetTree(Clone(s, cloneTree), tx, f, Some(name)) == Ok(CloneTree(GetTree(s, tx, f, Some(name)).value, cloneTree))
  {
  }
}
