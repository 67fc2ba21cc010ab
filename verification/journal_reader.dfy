/** The journal recovery scan. A reader walks one journal file page by page:
    each transaction starts with a header page followed by its (possibly
    LZ4-compressed) payload. Replayed transactions are decompressed or copied
    into a recovery buffer, and a page-translation table records, for every
    page number, where in that buffer its latest durable image sits. */
module JournalReader {
  import opened Wrappers
  import ClrInt

  /** Marks a page as a transaction header. */
  const TransactionHeaderMarker: int := 0x1A4C92AD90ABC123

  /** The on-disk header of one journal transaction. `committed` stands for the
      Commit flag of `TxMarker`. */
  datatype TransactionHeader = TransactionHeader(
    headerMarker: int,
    transactionId: int,
    lastPageNumber: int,
    pageCount: int,
    overflowPageCount: int,
    committed: bool,
    compressed: bool,
    compressedSize: int,
    uncompressedSize: int,
    crc: int)

  /** The header of a page image as the recovery pager reads it. */
  datatype PageImage = PageImage(pageNumber: int, isOverflow: bool, overflowSize: int)

  /** Zeroed memory read as a page header. */
  const ZeroPage := PageImage(0, false, 0)

  /** One journal file as the reader sees it. Checksums, decompression and raw
      copies are not modelled; they are given as functions:
      - `headerAt(p)`: the page at position `p` read as a transaction header;
      - `crc(p, n)`: CRC-32 of the `n` pages starting at `p`;
      - `decompress(p, h)`: LZ4 decoding of the payload at `p` described by `h`,
        `None` when the decoder throws;
      - `pagesAt(p, n)`: the `n` pages starting at `p`, copied as they are. */
  datatype JournalFile = JournalFile(
    allocatedPages: int,
    headerAt: int -> TransactionHeader,
    crc: (int, int) -> int,
    decompress: (int, TransactionHeader) -> Option<seq<PageImage>>,
    pagesAt: (int, int) -> seq<PageImage>)

  /** The pager geometry: bytes per page and the page count of an overflow
      value of a given size (`GetNumberOfOverflowPages`). */
  datatype Geometry = Geometry(pageSize: int, overflowPages: int -> int)

  /** Settings of one scan. */
  datatype ScanOptions = ScanOptions(
    lastSyncedTransactionId: int,
    maxPageToRead: Option<int>,
    checkCrc: bool)

  /** Where a page's latest image sits in the recovery buffer. */
  datatype RecoveryPagePosition = RecoveryPagePosition(
    journalPos: int,
    transactionId: int,
    isOverflow: bool,
    numberOfOverflowPages: int)

  type TranslationTable = map<int, RecoveryPagePosition>

  datatype ReaderState = ReaderState(
    readingPage: int,
    recoveryPage: int,
    lastHeader: Option<TransactionHeader>,
    requireHeaderUpdate: bool,
    table: TranslationTable)

  /** The constructor: a fresh reader at the start of the file, with the
      recovery cursor at `recoverPage`, the given previous header, no header
      update demanded and an empty translation table. */
  function NewReader(previous: Option<TransactionHeader>, recoverPage: int): (s: ReaderState)
    ensures s.readingPage == 0 && s.recoveryPage == recoverPage
    ensures s.lastHeader == previous && !s.requireHeaderUpdate
    ensures |s.table| == 0
  {
    ReaderState(0, recoverPage, previous, false, map[])
  }

  /** Why `ValidateHeader` throws. */
  datatype HeaderError =
    | NegativeTransactionId(id: int)
    | NegativeLastPageNumber
    | ZeroChecksum
    | InvalidCompressedSize
    | UnexpectedTransactionId(expected: int, got: int)

  // ---------------------------------------------------------------------------
  // Header validation
  // ---------------------------------------------------------------------------

  /** `ValidateHeader`: the first failed check, or `None` when the header passes. */
  function ValidateHeader(current: TransactionHeader, previous: Option<TransactionHeader>): (r: Option<HeaderError>)
    ensures r.None? <==>
      && current.transactionId >= 0
      && (current.committed ==> current.lastPageNumber >= 0)
      && (current.committed && current.pageCount > 0 ==> current.crc != 0)
      && (current.compressed ==> current.compressedSize > 0)
      && (previous.Some? && current.transactionId != 1 ==>
            current.transactionId == previous.value.transactionId + 1)
    ensures r.Some? && r.value.UnexpectedTransactionId? ==>
      previous.Some? && r.value.expected == previous.value.transactionId + 1 && r.value.got == current.transactionId
  {
    if current.transactionId < 0 then Some(NegativeTransactionId(current.transactionId))
    else if current.committed && current.lastPageNumber < 0 then Some(NegativeLastPageNumber)
    else if current.committed && current.pageCount > 0 && current.crc == 0 then Some(ZeroChecksum)
    else if current.compressed && current.compressedSize <= 0 then Some(InvalidCompressedSize)
    else if previous.None? then None
    else if current.transactionId != 1 && current.transactionId - previous.value.transactionId != 1 then
      Some(UnexpectedTransactionId(previous.value.transactionId + 1, current.transactionId))
    else None
  }

  // ---------------------------------------------------------------------------
  // Page arithmetic
  // ---------------------------------------------------------------------------

  /** `GetNumberOfPagesFromSize`, with C#'s truncating `/` and `%`. For a
      non-negative size the page count is the ceiling of `size / pageSize`:
      the fewest pages whose bytes cover `size`. A negative size down to minus
      one page counts one page, and exactly minus one page counts minus one. */
  function PagesFromSize(size: int, pageSize: int): (n: int)
    requires pageSize > 0
    ensures size >= 0 ==>
      && n >= 0
      && n * pageSize >= size
      && (size > 0 ==> (n - 1) * pageSize < size)
      && (size == 0 ==> n == 0)
    ensures -pageSize < size < 0 ==> n == 1
    ensures size == -pageSize ==> n == -1
  {
    var n := ClrInt.Quot(size, pageSize) + (if ClrInt.Rem(size, pageSize) == 0 then 0 else 1);
    assert size >= 0 ==> n >= 0 && n * pageSize >= size && (size > 0 ==> (n - 1) * pageSize < size) by {
      if size >= 0 {
        var q, m := size / pageSize, size % pageSize;
        assert ClrInt.Quot(size, pageSize) == q && ClrInt.Rem(size, pageSize) == m;
        DivisionSplit(size, pageSize);
        if m == 0 {
          assert n == q;
          MulPred(q, pageSize);
        } else {
          assert n == q + 1;
          MulSucc(q, pageSize);
        }
      }
    }
    assert -pageSize <= size < 0 ==> n == (if size == -pageSize then -1 else 1) by {
      if -pageSize <= size < 0 {
        SmallDivision(-size, pageSize);
      }
    }
    n
  }

  /** Division of a positive number not above the divisor. */
  lemma SmallDivision(a: int, b: int)
    requires 0 < a <= b
    ensures a < b ==> a / b == 0 && a % b == a
    ensures a == b ==> a / b == 1 && a % b == 0
  {
  }

  lemma DivisionSplit(a: int, b: int)
    requires a >= 0 && b > 0
    ensures a == (a / b) * b + a % b && a / b >= 0 && 0 <= a % b < b
  {
  }

  lemma MulPred(q: int, b: int)
    ensures (q - 1) * b == q * b - b
  {
  }

  lemma MulSucc(q: int, b: int)
    ensures (q + 1) * b == q * b + b
  {
  }

  // ---------------------------------------------------------------------------
  // Reading the payload pages of one transaction
  // ---------------------------------------------------------------------------

  /** The page image at offset `i` of the recovery buffer; past the copied
      payload the buffer reads as zeroed memory. */
  function PageAt(payload: seq<PageImage>, i: int): PageImage
  {
    if 0 <= i < |payload| then payload[i] else ZeroPage
  }

  /** How far the recovery cursor moves past a page recorded at `p`. */
  function Advance(p: RecoveryPagePosition): int
  {
    if p.isOverflow then p.numberOfOverflowPages else 1
  }

  datatype Entry = Entry(pageNumber: int, position: RecoveryPagePosition)

  datatype PageRead = PageRead(entries: seq<Entry>, cursor: int)

  /** Position `p`, recorded for page `k` by transaction `txId` in a buffer
      that starts at `base`, describes the page image found at its offset:
      the image carries page number `k`, and `p` is an overflow position, with
      that value's page count, exactly when the image is an overflow page. */
  predicate RecordsImage(payload: seq<PageImage>, g: Geometry, base: int, txId: int, k: int, p: RecoveryPagePosition)
  {
    var image := PageAt(payload, p.journalPos - base);
    && image.pageNumber == k
    && p.transactionId == txId
    && p.isOverflow == image.isOverflow
    && p.numberOfOverflowPages == (if image.isOverflow then g.overflowPages(image.overflowSize) else -1)
  }

  /** The `for` loop over `PageCount` pages: each page is recorded at the
      current recovery cursor, which then moves by one page, or by the page
      count of an overflow value. */
  function ReadPages(payload: seq<PageImage>, g: Geometry, base: int, cursor: int, remaining: int, txId: int): (r: PageRead)
    ensures |r.entries| == (if remaining > 0 then remaining else 0)
    ensures forall i | 0 <= i < |r.entries| :: r.entries[i].position.transactionId == txId
    ensures forall i | 0 <= i < |r.entries| ::
      RecordsImage(payload, g, base, txId, r.entries[i].pageNumber, r.entries[i].position)
    ensures |r.entries| == 0 ==> r.cursor == cursor
    ensures |r.entries| > 0 ==>
      && r.entries[0].position.journalPos == cursor
      && r.cursor == r.entries[|r.entries| - 1].position.journalPos + Advance(r.entries[|r.entries| - 1].position)
    ensures forall i | 0 <= i < |r.entries| - 1 ::
      r.entries[i + 1].position.journalPos == r.entries[i].position.journalPos + Advance(r.entries[i].position)
    decreases if remaining > 0 then remaining else 0
  {
    if remaining <= 0 then PageRead([], cursor)
    else
      var page := PageAt(payload, cursor - base);
      var n := g.overflowPages(page.overflowSize);
      var position :=
        if page.isOverflow then RecoveryPagePosition(cursor, txId, true, n)
        else RecoveryPagePosition(cursor, txId, false, -1);
      var rest := ReadPages(payload, g, base, cursor + Advance(position), remaining - 1, txId);
      PageRead([Entry(page.pageNumber, position)] + rest.entries, rest.cursor)
  }

  // ---------------------------------------------------------------------------
  // The per-transaction table and its merge into the translation table
  // ---------------------------------------------------------------------------

  /** A dictionary that enumerates its keys in first-insertion order, as a .NET
      `Dictionary` that never had a key removed does. */
  datatype TempTable = TempTable(order: seq<int>, vals: map<int, RecoveryPagePosition>)

  predicate Distinct(s: seq<int>)
  {
    forall a, b | 0 <= a < b < |s| :: s[a] != s[b]
  }

  /** `temp[pageNumber] = position` for each page read, in order: a page number
      read twice keeps its first slot and its last position. */
  function Collect(entries: seq<Entry>): (tt: TempTable)
    ensures Distinct(tt.order)
    ensures forall k :: k in tt.vals <==> k in tt.order
  {
    if |entries| == 0 then TempTable([], map[])
    else
      var prev := Collect(entries[..|entries| - 1]);
      var last := entries[|entries| - 1];
      TempTable(
        if last.pageNumber in prev.vals then prev.order else prev.order + [last.pageNumber],
        prev.vals[last.pageNumber := last.position])
  }

  /** Page number `k` is read at index `i` and never again after it. */
  predicate LastReadAt(entries: seq<Entry>, i: int, k: int)
  {
    0 <= i < |entries| && entries[i].pageNumber == k
    && forall i' | i < i' < |entries| :: entries[i'].pageNumber != k
  }

  predicate Read(entries: seq<Entry>, k: int)
  {
    exists i | 0 <= i < |entries| :: entries[i].pageNumber == k
  }

  /** The collected table holds exactly the page numbers read. */
  lemma {:induction false} CollectKeys(entries: seq<Entry>, k: int)
    ensures k in Collect(entries).vals <==> Read(entries, k)
    decreases |entries|
  {
    if |entries| > 0 {
      var init := entries[..|entries| - 1];
      CollectKeys(init, k);
      if Read(init, k) {
        var i :| 0 <= i < |init| && init[i].pageNumber == k;
        assert entries[i] == init[i];
      }
      if Read(entries, k) && entries[|entries| - 1].pageNumber != k {
        var i :| 0 <= i < |entries| && entries[i].pageNumber == k;
        assert entries[i] == init[i];
      }
    }
  }

  /** Each page number keeps the position read last for it. */
  lemma {:induction false} CollectKeepsLast(entries: seq<Entry>, k: int)
    requires k in Collect(entries).vals
    ensures exists i :: LastReadAt(entries, i, k) && Collect(entries).vals[k] == entries[i].position
    decreases |entries|
  {
    var init := entries[..|entries| - 1];
    var last := entries[|entries| - 1];
    assert Collect(entries).vals == Collect(init).vals[last.pageNumber := last.position];
    if last.pageNumber == k {
      assert LastReadAt(entries, |entries| - 1, k);
    } else {
      CollectKeepsLast(init, k);
      var i :| LastReadAt(init, i, k) && Collect(init).vals[k] == init[i].position;
      forall i' | i < i' < |entries| ensures entries[i'].pageNumber != k {
        if i' < |entries| - 1 {
          assert entries[i'] == init[i'];
        }
      }
      assert entries[i] == init[i];
      assert LastReadAt(entries, i, k);
    }
  }

  /** Position `p`, recorded for page `k`, is an overflow value that also
      spans page `q`. */
  predicate Spans(k: int, p: RecoveryPagePosition, q: int)
  {
    p.isOverflow && k < q < k + p.numberOfOverflowPages
  }

  /** Some entry of `order` is an overflow value spanning page `q`. */
  predicate SpannedBy(order: seq<int>, vals: map<int, RecoveryPagePosition>, q: int)
  {
    exists i | 0 <= i < |order| :: order[i] in vals && Spans(order[i], vals[order[i]], q)
  }

  /** Remove the entries of the pages `k + 1 .. k + n - 1`. */
  function RemoveSpan(table: TranslationTable, k: int, n: int): (t': TranslationTable)
    ensures forall q :: q in t' <==> q in table && !(k < q < k + n)
    ensures forall q | q in t' :: t'[q] == table[q]
  {
    map q | q in table && !(k < q < k + n) :: table[q]
  }

  /** Merge the per-transaction table into the translation table, key by key
      in enumeration order: store the position, and for an overflow value drop
      the entries of the pages it covers. Every entry the result holds was
      there before or is the one the per-transaction table has for it. */
  function Apply(table: TranslationTable, order: seq<int>, vals: map<int, RecoveryPagePosition>): (t': TranslationTable)
    requires forall k | k in order :: k in vals
    ensures forall q | q in t' :: (q in table && t'[q] == table[q]) || (q in vals && t'[q] == vals[q])
    decreases |order|
  {
    if |order| == 0 then table
    else
      var k := order[0];
      var p := vals[k];
      var t1 := table[k := p];
      var t2 := if p.isOverflow then RemoveSpan(t1, k, p.numberOfOverflowPages) else t1;
      Apply(t2, order[1..], vals)
  }

  /** A page the transaction neither wrote nor covered keeps its entry. */
  lemma {:induction false} ApplyFrame(table: TranslationTable, order: seq<int>, vals: map<int, RecoveryPagePosition>, q: int)
    requires forall k | k in order :: k in vals
    requires q !in order && !SpannedBy(order, vals, q)
    ensures q in Apply(table, order, vals) <==> q in table
    ensures q in table ==> Apply(table, order, vals)[q] == table[q]
    decreases |order|
  {
    if |order| > 0 {
      var k := order[0];
      var p := vals[k];
      var t1 := table[k := p];
      var t2 := if p.isOverflow then RemoveSpan(t1, k, p.numberOfOverflowPages) else t1;
      assert !Spans(k, p, q) by { assert order[0] in vals; }
      assert !SpannedBy(order[1..], vals, q);
      ApplyFrame(t2, order[1..], vals, q);
    }
  }

  /** A page covered by an overflow value of the transaction, and not itself
      written by it, loses its entry. */
  lemma {:induction false} ApplyRemovesSpanned(table: TranslationTable, order: seq<int>, vals: map<int, RecoveryPagePosition>, q: int)
    requires forall k | k in order :: k in vals
    requires q !in order && SpannedBy(order, vals, q)
    ensures q !in Apply(table, order, vals)
    decreases |order|
  {
    var k := order[0];
    var p := vals[k];
    var t1 := table[k := p];
    var t2 := if p.isOverflow then RemoveSpan(t1, k, p.numberOfOverflowPages) else t1;
    if SpannedBy(order[1..], vals, q) {
      ApplyRemovesSpanned(t2, order[1..], vals, q);
    } else {
      assert q !in t2;
      ApplyFrame(t2, order[1..], vals, q);
    }
  }

  /** A page the transaction wrote, and that none of its overflow values
      covers, maps to the position the transaction recorded for it. */
  lemma {:induction false} ApplyWrites(table: TranslationTable, order: seq<int>, vals: map<int, RecoveryPagePosition>, q: int)
    requires forall k | k in order :: k in vals
    requires Distinct(order)
    requires q in order && !SpannedBy(order, vals, q)
    ensures q in Apply(table, order, vals) && Apply(table, order, vals)[q] == vals[q]
    decreases |order|
  {
    var k := order[0];
    var p := vals[k];
    var t1 := table[k := p];
    var t2 := if p.isOverflow then RemoveSpan(t1, k, p.numberOfOverflowPages) else t1;
    assert !Spans(k, p, q) by { assert order[0] in vals; }
    assert !SpannedBy(order[1..], vals, q);
    if k == q {
      assert q !in order[1..] by {
        forall i | 0 <= i < |order[1..]| ensures order[1..][i] != q {
          assert order[1..][i] == order[i + 1];
        }
      }
      ApplyFrame(t2, order[1..], vals, q);
    } else {
      assert q in order[1..] by {
        var i :| 0 <= i < |order| && order[i] == q;
        assert order[1..][i - 1] == q;
      }
      assert Distinct(order[1..]) by {
        forall a, b | 0 <= a < b < |order[1..]| ensures order[1..][a] != order[1..][b] {
          assert order[1..][a] == order[a + 1] && order[1..][b] == order[b + 1];
        }
      }
      ApplyWrites(t2, order[1..], vals, q);
    }
  }

  /** The transaction's pages merged into the translation table. Every entry
      of the result was there before or is a position the transaction
      recorded for that very page number. */
  function ApplyTransaction(table: TranslationTable, entries: seq<Entry>): (t': TranslationTable)
    ensures forall q | q in t' ::
      || (q in table && t'[q] == table[q])
      || exists i | 0 <= i < |entries| :: entries[i].pageNumber == q && t'[q] == entries[i].position
  {
    var tt := Collect(entries);
    var t' := Apply(table, tt.order, tt.vals);
    assert forall q | q in t' && q in tt.vals && t'[q] == tt.vals[q] ::
      exists i | 0 <= i < |entries| :: entries[i].pageNumber == q && t'[q] == entries[i].position by {
      forall q | q in t' && q in tt.vals && t'[q] == tt.vals[q]
        ensures exists i | 0 <= i < |entries| :: entries[i].pageNumber == q && t'[q] == entries[i].position
      {
        CollectKeepsLast(entries, q);
      }
    }
    t'
  }

  /** What merging one transaction does to each page number `q`:
      - written by the transaction and covered by none of its overflow values:
        the position it recorded last for `q`;
      - covered by one of its overflow values and not written by it: no entry;
      - neither: the entry it had before. */
  lemma ApplyTransactionEffect(table: TranslationTable, entries: seq<Entry>, q: int)
    ensures var tt := Collect(entries);
      var t' := ApplyTransaction(table, entries);
      && (q in tt.vals && !SpannedBy(tt.order, tt.vals, q) ==>
            q in t' && t'[q] == tt.vals[q])
      && (q !in tt.vals && SpannedBy(tt.order, tt.vals, q) ==> q !in t')
      && (q !in tt.vals && !SpannedBy(tt.order, tt.vals, q) ==>
            (q in t' <==> q in table) && (q in table ==> t'[q] == table[q]))
  {
    var tt := Collect(entries);
    if q in tt.vals && !SpannedBy(tt.order, tt.vals, q) {
      ApplyWrites(table, tt.order, tt.vals, q);
    } else if q !in tt.vals && SpannedBy(tt.order, tt.vals, q) {
      ApplyRemovesSpanned(table, tt.order, tt.vals, q);
    } else if q !in tt.vals {
      ApplyFrame(table, tt.order, tt.vals, q);
    }
  }

  // ---------------------------------------------------------------------------
  // One step of the scan
  // ---------------------------------------------------------------------------

  datatype Step = Step(more: bool, state: ReaderState)

  /** The number of payload pages a header announces. */
  function PayloadPages(h: TransactionHeader, g: Geometry): int
    requires g.pageSize > 0
  {
    PagesFromSize(if h.compressed then h.compressedSize else h.uncompressedSize, g.pageSize)
  }

  /** The payload of the transaction whose pages start at `pos`: decompressed,
      or copied as it is; `None` when decompression fails. */
  function Payload(j: JournalFile, h: TransactionHeader, pos: int): Option<seq<PageImage>>
  {
    if h.compressed then j.decompress(pos, h)
    else Some(j.pagesAt(pos, h.pageCount + h.overflowPageCount))
  }

  /** `ReadOneTransaction`, with `TryReadAndValidateHeader`, `ValidatePagesCrc`
      and `TryDecompressTransactionPages` inlined. `Err` is the exception
      `ValidateHeader` throws; `Step(false, _)` ends the scan. */
  function ReadOneTransaction(j: JournalFile, g: Geometry, o: ScanOptions, s: ReaderState): (r: Result<Step, HeaderError>)
    requires g.pageSize > 0
    ensures r.Ok? && !r.value.more ==>
      r.value.state.table == s.table && r.value.state.lastHeader == s.lastHeader
      && r.value.state.recoveryPage == s.recoveryPage
    ensures r.Ok? && r.value.more ==>
      var h := j.headerAt(s.readingPage);
      && s.readingPage < j.allocatedPages
      && h.headerMarker == TransactionHeaderMarker && h.committed
      && ValidateHeader(h, s.lastHeader).None?
      && r.value.state.readingPage == s.readingPage + 1 + PayloadPages(h, g)
      && r.value.state.lastHeader == Some(h)
      && r.value.state.requireHeaderUpdate == s.requireHeaderUpdate
    ensures r.Err? ==>
      var h := j.headerAt(s.readingPage);
      h.headerMarker == TransactionHeaderMarker && ValidateHeader(h, s.lastHeader) == Some(r.error)
  {
    if s.readingPage >= j.allocatedPages then Ok(Step(false, s))
    else if o.maxPageToRead.Some? && s.readingPage >= o.maxPageToRead.value then Ok(Step(false, s))
    else
      var h := j.headerAt(s.readingPage);
      if h.headerMarker != TransactionHeaderMarker then
        Ok(Step(false, s.(requireHeaderUpdate := h.headerMarker != 0)))
      else match ValidateHeader(h, s.lastHeader)
        case Some(e) => Err(e)
        case None =>
          if !h.committed then Ok(Step(false, s.(requireHeaderUpdate := true)))
          else
            var pos := s.readingPage + 1;
            var size := PayloadPages(h, g);
            if h.transactionId <= o.lastSyncedTransactionId then
              Ok(Step(true, s.(readingPage := pos + size, lastHeader := Some(h))))
            else if o.checkCrc && j.crc(pos, size) != h.crc then
              Ok(Step(false, s.(readingPage := pos, requireHeaderUpdate := true)))
            else
              var payload := Payload(j, h, pos);
              if payload.None? then
                Ok(Step(false, s.(readingPage := pos, requireHeaderUpdate := true)))
              else
                var read := ReadPages(payload.value, g, s.recoveryPage, s.recoveryPage, h.pageCount, h.transactionId);
                Ok(Step(true, ReaderState(pos + size, read.cursor, Some(h), s.requireHeaderUpdate,
                                          ApplyTransaction(s.table, read.entries))))
  }

  // ---------------------------------------------------------------------------
  // Properties of one step
  // ---------------------------------------------------------------------------

  /** The scan stops without touching the reader once the position reaches the
      end of the file or the read limit. */
  lemma StopsAtLimit(j: JournalFile, g: Geometry, o: ScanOptions, s: ReaderState)
    requires g.pageSize > 0
    requires s.readingPage >= j.allocatedPages
             || (o.maxPageToRead.Some? && s.readingPage >= o.maxPageToRead.value)
    ensures ReadOneTransaction(j, g, o, s) == Ok(Step(false, s))
  {
  }

  /** A page without the header marker ends the scan; the header must be
      rewritten exactly when the marker is not zero (zero is the clean end of
      the written part of the file). */
  lemma MarkerEndsScan(j: JournalFile, g: Geometry, o: ScanOptions, s: ReaderState)
    requires g.pageSize > 0
    requires s.readingPage < j.allocatedPages
    requires o.maxPageToRead.None? || s.readingPage < o.maxPageToRead.value
    requires j.headerAt(s.readingPage).headerMarker != TransactionHeaderMarker
    ensures var r := ReadOneTransaction(j, g, o, s);
      && r.Ok? && !r.value.more
      && (r.value.state.requireHeaderUpdate <==> j.headerAt(s.readingPage).headerMarker != 0)
  {
  }

  /** An uncommitted header, a checksum mismatch and a failed decompression
      each end the scan and demand a header update. */
  lemma BadTransactionDemandsHeaderUpdate(j: JournalFile, g: Geometry, o: ScanOptions, s: ReaderState)
    requires g.pageSize > 0
    requires s.readingPage < j.allocatedPages
    requires o.maxPageToRead.None? || s.readingPage < o.maxPageToRead.value
    requires var h := j.headerAt(s.readingPage);
      && h.headerMarker == TransactionHeaderMarker
      && ValidateHeader(h, s.lastHeader).None?
      && (|| !h.committed
          || (h.transactionId > o.lastSyncedTransactionId && o.checkCrc
              && j.crc(s.readingPage + 1, PayloadPages(h, g)) != h.crc)
          || (h.transactionId > o.lastSyncedTransactionId && h.compressed
              && (!o.checkCrc || j.crc(s.readingPage + 1, PayloadPages(h, g)) == h.crc)
              && j.decompress(s.readingPage + 1, h).None?))
    ensures var r := ReadOneTransaction(j, g, o, s);
      r.Ok? && !r.value.more && r.value.state.requireHeaderUpdate
  {
  }

  /** A transaction already synced is skipped: the position moves past it and
      the last header advances, but the table and the recovery cursor stay. */
  lemma SyncedTransactionIsSkipped(j: JournalFile, g: Geometry, o: ScanOptions, s: ReaderState)
    requires g.pageSize > 0
    requires ReadOneTransaction(j, g, o, s).Ok? && ReadOneTransaction(j, g, o, s).value.more
    requires j.headerAt(s.readingPage).transactionId <= o.lastSyncedTransactionId
    ensures var s' := ReadOneTransaction(j, g, o, s).value.state;
      s'.table == s.table && s'.recoveryPage == s.recoveryPage
  {
  }

  /** Transaction ids are gapless: an accepted header follows its predecessor
      by exactly one, unless it is transaction 1 or there is no predecessor. */
  lemma AcceptedIdsAreGapless(j: JournalFile, g: Geometry, o: ScanOptions, s: ReaderState)
    requires g.pageSize > 0
    requires ReadOneTransaction(j, g, o, s).Ok? && ReadOneTransaction(j, g, o, s).value.more
    ensures var h := ReadOneTransaction(j, g, o, s).value.state.lastHeader.value;
      h.transactionId >= 0
      && (s.lastHeader.None? || h.transactionId == 1 || h.transactionId == s.lastHeader.value.transactionId + 1)
  {
  }

  /** The entries a replayed step reads: the header's `PageCount` pages of its
      payload, recorded from the recovery cursor on. */
  function ReplayedEntries(j: JournalFile, g: Geometry, s: ReaderState): seq<Entry>
  {
    var h := j.headerAt(s.readingPage);
    var payload := Payload(j, h, s.readingPage + 1);
    if payload.None? then []
    else ReadPages(payload.value, g, s.recoveryPage, s.recoveryPage, h.pageCount, h.transactionId).entries
  }

  /** A replayed transaction: every entry the table gains or changes was
      recorded by this transaction for the page image at its offset in the
      recovery buffer; every other entry is the one it had before. */
  lemma ReplayRecordsTransaction(j: JournalFile, g: Geometry, o: ScanOptions, s: ReaderState, q: int)
    requires g.pageSize > 0
    requires ReadOneTransaction(j, g, o, s).Ok? && ReadOneTransaction(j, g, o, s).value.more
    requires j.headerAt(s.readingPage).transactionId > o.lastSyncedTransactionId
    ensures var h := j.headerAt(s.readingPage);
      var t' := ReadOneTransaction(j, g, o, s).value.state.table;
      && Payload(j, h, s.readingPage + 1).Some?
      && (q in t' ==>
            || (q in s.table && t'[q] == s.table[q])
            || RecordsImage(Payload(j, h, s.readingPage + 1).value, g, s.recoveryPage, h.transactionId, q, t'[q]))
  {
  }

  /** A replayed transaction: a page number it read, that none of its own
      overflow values covers, maps to the position of the last image carrying
      that number, tagged with the transaction's id. */
  lemma ReplayRecordsPage(j: JournalFile, g: Geometry, o: ScanOptions, s: ReaderState, q: int)
    requires g.pageSize > 0
    requires ReadOneTransaction(j, g, o, s).Ok? && ReadOneTransaction(j, g, o, s).value.more
    requires j.headerAt(s.readingPage).transactionId > o.lastSyncedTransactionId
    requires Read(ReplayedEntries(j, g, s), q)
    requires forall i | 0 <= i < |ReplayedEntries(j, g, s)| ::
      !Spans(ReplayedEntries(j, g, s)[i].pageNumber, ReplayedEntries(j, g, s)[i].position, q)
    ensures var h := j.headerAt(s.readingPage);
      var entries := ReplayedEntries(j, g, s);
      var t' := ReadOneTransaction(j, g, o, s).value.state.table;
      && q in t'
      && RecordsImage(Payload(j, h, s.readingPage + 1).value, g, s.recoveryPage, h.transactionId, q, t'[q])
      && exists i :: LastReadAt(entries, i, q) && t'[q] == entries[i].position
  {
    ApplyTransactionRecordsLast(s.table, ReplayedEntries(j, g, s), q);
  }

  /** Every entry of the translation table belongs to a transaction newer than
      the last synced one; a step keeps this true. */
  ghost predicate TableAfterSynced(t: TranslationTable, lastSynced: int)
  {
    forall q | q in t :: t[q].transactionId > lastSynced
  }

  lemma StepKeepsTableAfterSynced(j: JournalFile, g: Geometry, o: ScanOptions, s: ReaderState)
    requires g.pageSize > 0
    requires TableAfterSynced(s.table, o.lastSyncedTransactionId)
    requires ReadOneTransaction(j, g, o, s).Ok?
    ensures TableAfterSynced(ReadOneTransaction(j, g, o, s).value.state.table, o.lastSyncedTransactionId)
  {
    var r := ReadOneTransaction(j, g, o, s);
    if r.value.more && j.headerAt(s.readingPage).transactionId > o.lastSyncedTransactionId {
      forall q | q in r.value.state.table
        ensures r.value.state.table[q].transactionId > o.lastSyncedTransactionId
      {
        ReplayRecordsTransaction(j, g, o, s, q);
      }
    }
  }

  /** A page number a transaction read, that none of its overflow values
      covers, maps to the position recorded at its last read. */
  lemma ApplyTransactionRecordsLast(table: TranslationTable, entries: seq<Entry>, q: int)
    requires Read(entries, q)
    requires forall i | 0 <= i < |entries| :: !Spans(entries[i].pageNumber, entries[i].position, q)
    ensures var t' := ApplyTransaction(table, entries);
      q in t' && exists i :: LastReadAt(entries, i, q) && t'[q] == entries[i].position
  {
    var tt := Collect(entries);
    forall i | 0 <= i < |tt.order| && tt.order[i] in tt.vals
      ensures !Spans(tt.order[i], tt.vals[tt.order[i]], q)
    {
      CollectKeepsLast(entries, tt.order[i]);
    }
    CollectKeys(entries, q);
    ApplyTransactionEffect(table, entries, q);
    CollectKeepsLast(entries, q);
  }

  /** Recovery with a manual flush: when a later transaction rewrites a page an
      earlier one wrote, the table keeps the later transaction's position. */
  lemma LaterTransactionWins(table: TranslationTable, entries: seq<Entry>, q: int, txId: int)
    requires forall i | 0 <= i < |entries| :: entries[i].position.transactionId == txId
    requires exists i | 0 <= i < |entries| :: entries[i].pageNumber == q
    requires forall i | 0 <= i < |entries| :: !Spans(entries[i].pageNumber, entries[i].position, q)
    ensures q in ApplyTransaction(table, entries)
    ensures ApplyTransaction(table, entries)[q].transactionId == txId
  {
    ApplyTransactionRecordsLast(table, entries, q);
  }

  // ---------------------------------------------------------------------------
  // The whole scan
  // ---------------------------------------------------------------------------

  datatype Recovery =
    | Finished(state: ReaderState)
    | Failed(error: HeaderError)
    | OutOfFuel(state: ReaderState)

  /** `RecoverAndValidate`: repeat `ReadOneTransaction` until it returns false.
      `fuel` bounds the number of steps. A scan that does not fail leaves as
      last header either the one it started with or a committed transaction
      header with a non-negative id; one that fails does so on a header with
      the transaction marker that `ValidateHeader` refuses. */
  function RecoverAndValidate(j: JournalFile, g: Geometry, o: ScanOptions, s: ReaderState, fuel: nat): (r: Recovery)
    requires g.pageSize > 0
    ensures !r.Failed? && r.state.lastHeader != s.lastHeader ==>
      && r.state.lastHeader.Some?
      && r.state.lastHeader.value.headerMarker == TransactionHeaderMarker
      && r.state.lastHeader.value.committed
      && r.state.lastHeader.value.transactionId >= 0
    ensures r.Failed? ==> exists p, last ::
      j.headerAt(p).headerMarker == TransactionHeaderMarker && ValidateHeader(j.headerAt(p), last) == Some(r.error)
    decreases fuel
  {
    if fuel == 0 then OutOfFuel(s)
    else match ReadOneTransaction(j, g, o, s)
      case Err(e) => Failed(e)
      case Ok(step) =>
        if step.more then RecoverAndValidate(j, g, o, step.state, fuel - 1) else Finished(step.state)
  }

  /** More fuel never changes a scan that finished or failed. */
  lemma {:induction false} FuelIsEnough(j: JournalFile, g: Geometry, o: ScanOptions, s: ReaderState, fuel: nat, more: nat)
    requires g.pageSize > 0
    requires !RecoverAndValidate(j, g, o, s, fuel).OutOfFuel?
    ensures RecoverAndValidate(j, g, o, s, fuel + more) == RecoverAndValidate(j, g, o, s, fuel)
    decreases fuel
  {
    if fuel > 0 {
      var r := ReadOneTransaction(j, g, o, s);
      RecoveryStep(j, g, o, s, fuel, r);
      RecoveryStep(j, g, o, s, fuel + more, r);
      if r.Ok? && r.value.more {
        FuelIsEnough(j, g, o, r.value.state, fuel - 1, more);
      }
    }
  }

  /** One step of `RecoverAndValidate`, given the transaction read at `s`. */
  lemma RecoveryStep(j: JournalFile, g: Geometry, o: ScanOptions, s: ReaderState, fuel: nat, r: Result<Step, HeaderError>)
    requires g.pageSize > 0 && fuel > 0 && r == ReadOneTransaction(j, g, o, s)
    ensures r.Err? ==> RecoverAndValidate(j, g, o, s, fuel) == Failed(r.error)
    ensures r.Ok? && !r.value.more ==> RecoverAndValidate(j, g, o, s, fuel) == Finished(r.value.state)
    ensures r.Ok? && r.value.more ==>
      RecoverAndValidate(j, g, o, s, fuel) == RecoverAndValidate(j, g, o, r.value.state, fuel - 1)
  {
  }

  /** A whole scan, finished or cut short, keeps every table entry newer than
      the last synced transaction. */
  lemma {:induction false} RecoveryKeepsTableAfterSynced(j: JournalFile, g: Geometry, o: ScanOptions, s: ReaderState, fuel: nat)
    requires g.pageSize > 0
    requires TableAfterSynced(s.table, o.lastSyncedTransactionId)
    ensures var r := RecoverAndValidate(j, g, o, s, fuel);
      !r.Failed? ==> TableAfterSynced(r.state.table, o.lastSyncedTransactionId)
    decreases fuel
  {
    if fuel > 0 && ReadOneTransaction(j, g, o, s).Ok? {
      StepKeepsTableAfterSynced(j, g, o, s);
      var step := ReadOneTransaction(j, g, o, s).value;
      if step.more {
        RecoveryKeepsTableAfterSynced(j, g, o, step.state, fuel - 1);
      }
    }
  }

  /** When no header in the file announces a negative uncompressed size, every
      accepted transaction moves the position forward, so the scan ends within
      one step per remaining page. */
  lemma {:induction false} RecoveryTerminates(j: JournalFile, g: Geometry, o: ScanOptions, s: ReaderState, fuel: nat)
    requires g.pageSize > 0
    requires forall p :: j.headerAt(p).uncompressedSize >= 0
    requires fuel > 0 && fuel > j.allocatedPages - s.readingPage
    ensures !RecoverAndValidate(j, g, o, s, fuel).OutOfFuel?
    decreases fuel
  {
    match ReadOneTransaction(j, g, o, s)
    case Err(_) =>
    case Ok(step) =>
      if step.more {
        var h := j.headerAt(s.readingPage);
        var size := if h.compressed then h.compressedSize else h.uncompressedSize;
        assert size >= 0 && PayloadPages(h, g) == PagesFromSize(size, g.pageSize);
        assert step.state.readingPage >= s.readingPage + 1;
        RecoveryTerminates(j, g, o, step.state, fuel - 1);
      }
  }

  /** A whole recovery as the environment runs it: a new reader at the start
      of the file. With enough fuel and non-negative sizes the scan ends, and
      whether it finishes or runs out of fuel, every page it translates
      belongs to a transaction newer than the last synced one. */
  lemma {:induction false} RecoveryFromNewReader(j: JournalFile, g: Geometry, o: ScanOptions, previous: Option<TransactionHeader>, recoverPage: int, fuel: nat)
    requires g.pageSize > 0
    ensures var r := RecoverAndValidate(j, g, o, NewReader(previous, recoverPage), fuel);
      !r.Failed? ==> TableAfterSynced(r.state.table, o.lastSyncedTransactionId)
    ensures (forall p :: j.headerAt(p).uncompressedSize >= 0) && fuel > 0 && fuel > j.allocatedPages ==>
      !RecoverAndValidate(j, g, o, NewReader(previous, recoverPage), fuel).OutOfFuel?
  {
    var s := NewReader(previous, recoverPage);
    RecoveryKeepsTableAfterSynced(j, g, o, s, fuel);
    if (forall p :: j.headerAt(p).uncompressedSize >= 0) && fuel > 0 && fuel > j.allocatedPages {
      RecoveryTerminates(j, g, o, s, fuel);
    }
  }

  /** Without that condition the scan need not end: transaction 1, already
      synced, whose uncompressed size is minus one page, moves the position by
      `1 + (-1)` pages and is read again forever. */
  lemma NegativeSizeStalls(g: Geometry, s: ReaderState, fuel: nat)
    requires g.pageSize > 0 && s.readingPage == 0
    ensures var h := TransactionHeader(TransactionHeaderMarker, 1, 0, 0, 0, true, false, 0, -g.pageSize, 0);
      var j := JournalFile(1, _ => h, (_, _) => 0, (_, _) => None, (_, _) => []);
      var o := ScanOptions(1, None, true);
      RecoverAndValidate(j, g, o, s, fuel).OutOfFuel?
  {
    var h := TransactionHeader(TransactionHeaderMarker, 1, 0, 0, 0, true, false, 0, -g.pageSize, 0);
    var j := JournalFile(1, _ => h, (_, _) => 0, (_, _) => None, (_, _) => []);
    var o := ScanOptions(1, None, true);
    NegativeSizeStallsFrom(g, j, o, h, s, fuel);
  }

  lemma {:induction false} NegativeSizeStallsFrom(g: Geometry, j: JournalFile, o: ScanOptions, h: TransactionHeader, s: ReaderState, fuel: nat)
    requires g.pageSize > 0 && s.readingPage == 0
    requires h == TransactionHeader(TransactionHeaderMarker, 1, 0, 0, 0, true, false, 0, -g.pageSize, 0)
    requires j.allocatedPages == 1 && forall p :: j.headerAt(p) == h
    requires o == ScanOptions(1, None, true)
    ensures RecoverAndValidate(j, g, o, s, fuel).OutOfFuel?
    decreases fuel
  {
    if fuel > 0 {
      var r := ReadOneTransaction(j, g, o, s);
      assert r == Ok(Step(true, s.(readingPage := 0, lastHeader := Some(h))));
      NegativeSizeStallsFrom(g, j, o, h, r.value.state, fuel - 1);
    }
  }
}
