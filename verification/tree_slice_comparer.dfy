/** The equality comparer for (tree, key) pairs: the same tree reference and
    keys that compare equal. Trees are compared by reference; keys through
    their own `Compare` and hash, given as functions. */
module TreeSliceComparer {
  import opened Wrappers

  datatype Pair<Tree, Slice> = Pair(tree: Tree, slice: Slice)

  /** `Equals(x, y)`; `None` is a null pair. */
  function Equals<Tree(==), Slice>(x: Option<Pair<Tree, Slice>>, y: Option<Pair<Tree, Slice>>, compare: (Slice, Slice) -> int): (r: bool)
    ensures x.None? && y.None? ==> r
    ensures x.None? != y.None? ==> !r
    ensures x.Some? && y.Some? && x.value.tree != y.value.tree ==> !r
    ensures x.Some? && y.Some? && x.value.tree == y.value.tree ==> (r <==> compare(x.value.slice, y.value.slice) == 0)
  {
    if x.None? && y.None? then true
    else if x.None? || y.None? then false
    else if x.value.tree != y.value.tree then false
    else compare(x.value.slice, y.value.slice) == 0
  }

  /** `Compare` returns zero for equal keys, symmetrically and transitively. */
  ghost predicate CompareIsEquivalence<Slice(!new)>(compare: (Slice, Slice) -> int)
  {
    && (forall a :: compare(a, a) == 0)
    && (forall a, b :: compare(a, b) == 0 ==> compare(b, a) == 0)
    && (forall a, b, c :: compare(a, b) == 0 && compare(b, c) == 0 ==> compare(a, c) == 0)
  }

  /** When `Compare` is, the comparer is an equivalence relation. */
  lemma EqualsIsEquivalence<Tree, Slice(!new)>(x: Option<Pair<Tree, Slice>>, y: Option<Pair<Tree, Slice>>, z: Option<Pair<Tree, Slice>>, compare: (Slice, Slice) -> int)
    requires CompareIsEquivalence(compare)
    ensures Equals(x, x, compare)
    ensures Equals(x, y, compare) ==> Equals(y, x, compare)
    ensures Equals(x, y, compare) && Equals(y, z, compare) ==> Equals(x, z, compare)
  {
    if Equals(x, y, compare) && Equals(y, z, compare) && x.Some? {
      assert compare(x.value.slice, y.value.slice) == 0 && compare(y.value.slice, z.value.slice) == 0;
    }
  }

  /** `GetHashCode`: the tree's hash XOR 397 times the key's hash, in 32-bit
      two's complement arithmetic. A null pair has no hash (the call throws). */
  function HashCode<Tree, Slice>(p: Option<Pair<Tree, Slice>>, treeHash: Tree -> bv32, sliceHash: Slice -> bv32): (r: Option<bv32>)
    ensures r.None? <==> p.None?
  {
    match p
    case None => None
    case Some(pair) => Some(treeHash(pair.tree) ^ Times397(sliceHash(pair.slice)))
  }

  /** `397 * h` with 32-bit wrap-around. */
  function Times397(h: bv32): bv32
  {
    397 * h
  }

  /** Equal pairs hash alike when keys that compare equal hash alike. */
  lemma EqualPairsHashAlike<Tree, Slice(!new)>(x: Option<Pair<Tree, Slice>>, y: Option<Pair<Tree, Slice>>, compare: (Slice, Slice) -> int, treeHash: Tree -> bv32, sliceHash: Slice -> bv32)
    requires forall a, b :: compare(a, b) == 0 ==> sliceHash(a) == sliceHash(b)
    requires Equals(x, y, compare)
    ensures HashCode(x, treeHash, sliceHash) == HashCode(y, treeHash, sliceHash)
  {
    if x.Some? {
      assert compare(x.value.slice, y.value.slice) == 0;
    }
  }

  /** For one key, the hash tells trees apart exactly as the tree hash does. */
  lemma HashSeparatesTrees<Tree, Slice>(t: Tree, u: Tree, s: Slice, treeHash: Tree -> bv32, sliceHash: Slice -> bv32)
    ensures HashCode(Some(Pair(t, s)), treeHash, sliceHash).value == HashCode(Some(Pair(u, s)), treeHash, sliceHash).value
      <==> treeHash(t) == treeHash(u)
  {
    XorCancels(treeHash(t), treeHash(u), Times397(sliceHash(s)));
  }

  lemma XorCancels(a: bv32, b: bv32, k: bv32)
    ensures a ^ k == b ^ k <==> a == b
  {
    assert (a ^ k) ^ k == a && (b ^ k) ^ k == b;
  }
}
