/** The header of a B+tree node and where the node's value lives: inline after
    the key, or on an overflow page the node refers to. Addresses are plain
    integers (byte offsets). */
module NodeHeader {
  import opened Wrappers
  import ClrInt

  /** Bytes of the packed header: fields end at offset 13. */
  const NodeHeaderSize: int := 13
  /** Bytes of the slot that points at a node from its page (`sizeof(ushort)`). */
  const NodeOffsetSize: int := 2

  /** A field of the packed header: byte offset and width. */
  datatype Field = Field(offset: nat, width: nat)

  const DataSizeField := Field(0, 4)
  const PageNumberField := Field(0, 8)
  const FlagsField := Field(8, 1)
  const KeySizeField := Field(9, 2)
  const VersionField := Field(11, 2)

  predicate Overlap(a: Field, b: Field)
  {
    a.offset < b.offset + b.width && b.offset < a.offset + a.width
  }

  /** The number of distinct values a field of `width` bytes holds. */
  function ValuesOfWidth(width: nat): (v: nat)
    ensures v >= 1
  {
    if width == 0 then 1 else 256 * ValuesOfWidth(width - 1)
  }

  /** `DataSize` is the low half of `PageNumber`: the two are one storage read
      two ways. Its width is that of the 32-bit wrap-around `DataSize` applies
      to the shared word. Flags, key size and version sit after it, apart from
      each other, and the last field ends where the header does. */
  lemma HeaderLayout()
    ensures ValuesOfWidth(DataSizeField.width) == ClrInt.Int32Modulus
    ensures Overlap(DataSizeField, PageNumberField)
    ensures DataSizeField.offset == PageNumberField.offset && DataSizeField.width <= PageNumberField.width
    ensures !Overlap(PageNumberField, FlagsField) && !Overlap(PageNumberField, KeySizeField)
            && !Overlap(PageNumberField, VersionField)
    ensures !Overlap(FlagsField, KeySizeField) && !Overlap(FlagsField, VersionField)
            && !Overlap(KeySizeField, VersionField)
    ensures VersionField.offset + VersionField.width == NodeHeaderSize
  {
  }

  /** The node kinds; only `PageRef` changes where the value lives. */
  datatype NodeFlags = Data | PageRef | MultiValuePageRef

  /** A node header. `word` is the signed 64-bit value stored at offset 0:
      `PageNumber` reads all of it and `DataSize` its low 32 bits. */
  datatype Node = Node(word: int, flags: NodeFlags, keySize: int, version: int)

  predicate ValidNode(n: Node)
  {
    0 <= n.keySize <= ClrInt.MaxUInt16 && 0 <= n.version <= ClrInt.MaxUInt16
  }

  function PageNumber(n: Node): int
  {
    n.word
  }

  /** The little-endian low half of the 64-bit word, as a signed 32-bit value:
      the `DataSizeField.width` bytes at the word's offset, as `HeaderLayout`
      states. */
  function DataSize(n: Node): (d: int)
    ensures ClrInt.MinInt32 <= d <= ClrInt.MaxInt32
    ensures ClrInt.MinInt32 <= PageNumber(n) <= ClrInt.MaxInt32 ==> d == PageNumber(n)
  {
    ClrInt.ToInt32(n.word)
  }

  /** The page a transaction returns for a page number: its base address and,
      for an overflow page, the size of the value it holds. */
  datatype OverflowPage = OverflowPage(base: int, overflowSize: int)

  /** `GetNodeSize`, with 32-bit wrap-around of the sum. */
  function GetNodeSize(n: Node): (size: int)
    requires ValidNode(n)
    ensures n.flags == PageRef ==> size == NodeHeaderSize + n.keySize + NodeOffsetSize
    ensures n.flags != PageRef && 0 <= DataSize(n) <= ClrInt.MaxInt32 - NodeHeaderSize - ClrInt.MaxUInt16 - NodeOffsetSize ==>
      size == NodeHeaderSize + n.keySize + NodeOffsetSize + DataSize(n)
  {
    ClrInt.ToInt32(NodeHeaderSize + n.keySize + NodeOffsetSize + (if n.flags == PageRef then 0 else DataSize(n)))
  }

  /** `DirectAccess`: the address of the node's value. An overflow value
      starts right after its page's header; an inline value ends where the
      node's offset slot begins. */
  function DirectAccess(node: int, n: Node, pageHeaderSize: int, getPage: int -> OverflowPage): (a: int)
    ensures n.flags == PageRef ==> a - pageHeaderSize == getPage(PageNumber(n)).base
    ensures (ValidNode(n) && n.flags != PageRef
      && 0 <= DataSize(n) <= ClrInt.MaxInt32 - NodeHeaderSize - ClrInt.MaxUInt16 - NodeOffsetSize) ==>
      a + DataSize(n) == node + GetNodeSize(n) - NodeOffsetSize
  {
    if n.flags == PageRef then getPage(PageNumber(n)).base + pageHeaderSize
    else node + n.keySize + NodeHeaderSize
  }

  /** `GetDataSize`: the length of the node's value: the size its overflow
      page records, or the room the node has between its key and its offset
      slot. */
  function GetDataSize(n: Node, getPage: int -> OverflowPage): (d: int)
    ensures n.flags == PageRef ==> d == getPage(PageNumber(n)).overflowSize
    ensures (ValidNode(n) && n.flags != PageRef
      && 0 <= DataSize(n) <= ClrInt.MaxInt32 - NodeHeaderSize - ClrInt.MaxUInt16 - NodeOffsetSize) ==>
      d == GetNodeSize(n) - NodeHeaderSize - n.keySize - NodeOffsetSize
  {
    if n.flags == PageRef then getPage(PageNumber(n)).overflowSize else DataSize(n)
  }

  /** A region of memory: start address and length in bytes. */
  datatype Region = Region(address: int, length: int)

  /** `Reader`: the value's address and length, the region that starts at
      `DirectAccess` and is `GetDataSize` bytes long. */
  function Reader(node: int, n: Node, pageHeaderSize: int, getPage: int -> OverflowPage): (r: Region)
    ensures r == Region(DirectAccess(node, n, pageHeaderSize, getPage), GetDataSize(n, getPage))
  {
    if n.flags == PageRef then
      var page := getPage(PageNumber(n));
      Region(page.base + pageHeaderSize, page.overflowSize)
    else Region(node + n.keySize + NodeHeaderSize, DataSize(n))
  }

  datatype NodeError = ValueTooBigForSlice

  /** `GetData`: the value as a slice, whose length is a 16-bit count. A value
      on an overflow page longer than that is refused; an inline size is cast
      without a check. */
  function GetData(node: int, n: Node, pageHeaderSize: int, getPage: int -> OverflowPage): (r: Result<Region, NodeError>)
    ensures r.Err? <==> n.flags == PageRef && getPage(PageNumber(n)).overflowSize > ClrInt.MaxUInt16
    ensures r.Ok? ==> 0 <= r.value.length <= ClrInt.MaxUInt16
  {
    if n.flags == PageRef then
      var page := getPage(PageNumber(n));
      if page.overflowSize > ClrInt.MaxUInt16 then Err(ValueTooBigForSlice)
      else Ok(Region(page.base + pageHeaderSize, ClrInt.ToUInt16(page.overflowSize)))
    else Ok(Region(node + n.keySize + NodeHeaderSize, ClrInt.ToUInt16(DataSize(n))))
  }

  /** The three ways to reach a value agree: `Reader` gives the address of
      `DirectAccess` and the length of `GetDataSize`, and `GetData`, when it
      succeeds, gives the same region whenever the length fits in 16 bits. */
  lemma AccessorsAgree(node: int, n: Node, pageHeaderSize: int, getPage: int -> OverflowPage)
    ensures Reader(node, n, pageHeaderSize, getPage)
      == Region(DirectAccess(node, n, pageHeaderSize, getPage), GetDataSize(n, getPage))
    ensures 0 <= GetDataSize(n, getPage) <= ClrInt.MaxUInt16 ==>
      GetData(node, n, pageHeaderSize, getPage) == Ok(Reader(node, n, pageHeaderSize, getPage))
  {
  }

  /** A negative overflow size is not refused: it wraps to a 16-bit length. */
  lemma NegativeOverflowSizeWraps(node: int, n: Node, pageHeaderSize: int, getPage: int -> OverflowPage)
    requires n.flags == PageRef && getPage(PageNumber(n)).overflowSize == -1
    ensures GetData(node, n, pageHeaderSize, getPage).Ok?
    ensures GetData(node, n, pageHeaderSize, getPage).value.length == ClrInt.MaxUInt16
  {
  }

  /** An inline value fills the node between the key and the offset slot: it
      starts after the header and the key and ends `NodeOffsetSize` bytes
      before the node size. */
  lemma InlineValueFillsNode(node: int, n: Node, pageHeaderSize: int, getPage: int -> OverflowPage)
    requires ValidNode(n) && n.flags != PageRef
    requires 0 <= DataSize(n) <= ClrInt.MaxInt32 - NodeHeaderSize - ClrInt.MaxUInt16 - NodeOffsetSize
    ensures var v := Reader(node, n, pageHeaderSize, getPage);
      && v.address == node + NodeHeaderSize + n.keySize
      && v.address + v.length == node + GetNodeSize(n) - NodeOffsetSize
  {
  }

  /** A node that refers to an overflow page takes the same room whatever its
      value's length: the header, the key and the offset slot. */
  lemma PageRefSizeIgnoresValue(n: Node, m: Node)
    requires ValidNode(n) && ValidNode(m)
    requires n.flags == PageRef && m.flags == PageRef && n.keySize == m.keySize
    ensures GetNodeSize(n) == GetNodeSize(m)
  {
  }

  // ---------------------------------------------------------------------------
  // Copying a value out of its node
  // ---------------------------------------------------------------------------

  /** The offsets `0 .. n - 1`. */
  function Offsets(n: int): (r: set<int>)
    ensures forall k :: k in r <==> 0 <= k < n
    decreases if n > 0 then n else 0
  {
    if n <= 0 then {} else Offsets(n - 1) + {n - 1}
  }

  /** `Memory.Copy(dest, src.address, src.length)`: the destination buffer,
      as byte offsets to byte values, with its first `src.length` bytes taken
      from memory `mem`. A non-positive length copies nothing. */
  function MemCopy(dest: map<int, int>, mem: int -> int, src: Region): (d: map<int, int>)
    ensures forall i | 0 <= i < src.length :: i in d && d[i] == mem(src.address + i)
    ensures forall i | i in dest && !(0 <= i < src.length) :: i in d && d[i] == dest[i]
    ensures forall i | i in d :: i in dest || 0 <= i < src.length
  {
    map i | i in dest.Keys + Offsets(src.length) ::
      if 0 <= i < src.length then mem(src.address + i) else dest[i]
  }

  /** `CopyTo` as written: for a `PageRef` node the overflow value is copied,
      and then, since there is no `else`, the node's inline bytes are copied
      over it as well, `DataSize` of them: the low half of the page number.
      So the first `DataSize` bytes always come from the node, and only the
      overflow bytes past them survive. */
  function CopyToAsWritten(node: int, n: Node, pageHeaderSize: int, getPage: int -> OverflowPage, mem: int -> int, dest: map<int, int>): (d: map<int, int>)
    ensures forall i | 0 <= i < DataSize(n) :: i in d && d[i] == mem(node + NodeHeaderSize + n.keySize + i)
    ensures n.flags == PageRef ==>
      forall i | 0 <= i < GetDataSize(n, getPage) && !(0 <= i < DataSize(n)) ::
        i in d && d[i] == mem(DirectAccess(node, n, pageHeaderSize, getPage) + i)
    ensures forall i | i in dest && !(0 <= i < GetDataSize(n, getPage)) && !(0 <= i < DataSize(n)) ::
      i in d && d[i] == dest[i]
  {
    var d1 :=
      if n.flags == PageRef then
        var page := getPage(PageNumber(n));
        MemCopy(dest, mem, Region(page.base + pageHeaderSize, page.overflowSize))
      else dest;
    MemCopy(d1, mem, Region(node + n.keySize + NodeHeaderSize, DataSize(n)))
  }

  /** `CopyTo` as evidently intended: one copy of the value `Reader` describes. */
  function CopyTo(node: int, n: Node, pageHeaderSize: int, getPage: int -> OverflowPage, mem: int -> int, dest: map<int, int>): (d: map<int, int>)
    ensures forall i | 0 <= i < GetDataSize(n, getPage) ::
      i in d && d[i] == mem(DirectAccess(node, n, pageHeaderSize, getPage) + i)
    ensures forall i | i in dest && !(0 <= i < GetDataSize(n, getPage)) :: i in d && d[i] == dest[i]
  {
    AccessorsAgree(node, n, pageHeaderSize, getPage);
    MemCopy(dest, mem, Reader(node, n, pageHeaderSize, getPage))
  }

  /** For a node that holds its value inline the two agree. */
  lemma CopyToAgreesInline(node: int, n: Node, pageHeaderSize: int, getPage: int -> OverflowPage, mem: int -> int, dest: map<int, int>)
    requires n.flags != PageRef
    ensures CopyToAsWritten(node, n, pageHeaderSize, getPage, mem, dest) == CopyTo(node, n, pageHeaderSize, getPage, mem, dest)
  {
  }

  /** For a `PageRef` node whose page number is 5 and whose value's first byte
      differs from the byte after the node's key, the code as written leaves
      the wrong first byte in the destination. */
  lemma CopyToOverwritesOverflowValue()
    ensures var n := Node(5, PageRef, 0, 0);
      var getPage := (_: int) => OverflowPage(1000, 100);
      var mem := (a: int) => if a == NodeHeaderSize then 1 else 0;
      var wrong := CopyToAsWritten(0, n, 64, getPage, mem, map[]);
      var right := CopyTo(0, n, 64, getPage, mem, map[]);
      && 0 in wrong && 0 in right
      && right[0] == mem(DirectAccess(0, n, 64, getPage))
      && wrong[0] != right[0]
  {
    var n := Node(5, PageRef, 0, 0);
    assert DataSize(n) == 5;
  }
}
