/**
  `parse_table`: every data row of the transaction table becomes a record
  keyed by the header texts, position by position; how a cell is read
  depends on its lower-cased header.
 */
module Table {
  import opened Wrappers
  import opened Strings
  import opened Page
  import opened Folds

  // ---------------------------------------------------------------------
  // Cells and the values read from them
  // ---------------------------------------------------------------------

  /** An element with a `title` attribute: its text and that attribute, if present. */
  datatype Span = Span(text: string, title: Option<string>)

  /** The `.//div/div` block of a cell: the text of the `<p>` inside it, if there is one. */
  datatype InnerBlock = InnerBlock(paragraph: Option<string>)

  /**
    A `<td>`, with what the scraper may look up in it: all `.//a` anchors
    in document order, the `.//div/div` block, the text of the first
    `.//p`, the text of the primary gas-fee element and the secondary
    (dollar) gas-fee element. `None` is an element that is not there.
   */
  datatype Cell = Cell(
    anchors: seq<Anchor>,
    inner: Option<InnerBlock>,
    paragraph: Option<string>,
    sourceFee: Option<string>,
    dollarSpan: Option<Span>)

  /** `{'payload': a.text, 'link': a.get_attribute('href')}`. */
  datatype Transfer = Transfer(payload: string, link: Option<string>)

  /** The five record shapes a cell can be stored as. */
  datatype Value =
    | HashLink(innerHash: string, innerLink: string)
    | Interaction(operation: Option<string>, othersHash: string, othersLink: string)
    | Transfers(transfers: seq<Transfer>)
    | GasFee(sourceFee: string, dollarFee: string, course: Option<string>)
    | Text(text: Option<string>)

  /** A row's dict, header text to value. */
  type Record = map<string, Value>

  /** The five branches of the dispatch. */
  datatype Column = DateColumn | InteractedColumn | TransferColumn | GasFeeColumn | PlainColumn

  /** The branch `header.lower()` selects; any header other than the four names is plain text. */
  function ColumnOf(header: string): (c: Column)
    ensures c == DateColumn <==> Lower(header) == "date"
    ensures c == InteractedColumn <==> Lower(header) == "interacted with"
    ensures c == TransferColumn <==> Lower(header) == "transfer"
    ensures c == GasFeeColumn <==> Lower(header) == "gas fee"
    ensures c == PlainColumn <==> Lower(header) !in {"date", "interacted with", "transfer", "gas fee"}
  {
    var key := Lower(header);
    if key == "date" then DateColumn
    else if key == "interacted with" then InteractedColumn
    else if key == "transfer" then TransferColumn
    else if key == "gas fee" then GasFeeColumn
    else PlainColumn
  }

  /** The dispatch ignores letter case: a header and its lower-cased text select the same branch. */
  lemma ColumnIgnoresCase(header: string)
    ensures ColumnOf(Lower(header)) == ColumnOf(header)
  {
    LowerIdempotent(header);
  }

  /** The branch that builds values of this shape. */
  function ShapeOf(v: Value): Column {
    match v
    case HashLink(_, _) => DateColumn
    case Interaction(_, _, _) => InteractedColumn
    case Transfers(_) => TransferColumn
    case GasFee(_, _, _) => GasFeeColumn
    case Text(_) => PlainColumn
  }

  /** The transfer list: one entry per anchor, in anchor order. */
  function TransfersOf(anchors: seq<Anchor>): (ts: seq<Transfer>)
    ensures |ts| == |anchors|
    ensures forall k :: 0 <= k < |anchors| ==> ts[k] == Transfer(anchors[k].text, anchors[k].href)
    decreases |anchors|
  {
    if anchors == [] then []
    else
      var n := |anchors| - 1;
      TransfersOf(anchors[..n]) + [Transfer(anchors[n].text, anchors[n].href)]
  }

  /** The text of an optional element with surrounding whitespace stripped. */
  function StrippedText(p: Option<string>): (r: Option<string>)
    ensures r.None? <==> p.None?
    ensures r.Some? ==> exists i, j :: StrippedAt(p.value, r.value, i, j)
  {
    match p
    case None => None
    case Some(t) => Some(Strip(t))
  }

  /**
    One branch of the dispatch applied to a cell. A date or interaction
    cell needs its hash link (and an interaction cell its `.//div/div`
    block first); a gas-fee cell needs the dollar element, then the primary
    one. Transfer and plain cells always give a value. Every value has the
    shape its branch builds.
   */
  function CellValue(column: Column, cell: Cell): (r: Result<Value, PageError>)
    ensures r.Success? ==> ShapeOf(r.value) == column
    ensures r.Failure? <==>
      || (column == DateColumn && ProcessHashLink(cell.anchors).Failure?)
      || (column == InteractedColumn && (cell.inner.None? || ProcessHashLink(cell.anchors).Failure?))
      || (column == GasFeeColumn && (cell.dollarSpan.None? || cell.sourceFee.None?))
  {
    match column
    case DateColumn =>
      (match ProcessHashLink(cell.anchors)
       case Failure(e) => Failure(e)
       case Success((hash, link)) => Success(HashLink(hash, link)))
    case InteractedColumn =>
      (match cell.inner
       case None => Failure(ElementNotFound)
       case Some(block) =>
         match ProcessHashLink(cell.anchors)
         case Failure(e) => Failure(e)
         case Success((hash, link)) => Success(Interaction(block.paragraph, hash, link)))
    case TransferColumn => Success(Transfers(TransfersOf(cell.anchors)))
    case GasFeeColumn =>
      (match cell.dollarSpan
       case None => Failure(ElementNotFound)
       case Some(span) =>
         match cell.sourceFee
         case None => Failure(ElementNotFound)
         case Some(fee) => Success(GasFee(fee, span.text, span.title)))
    case PlainColumn => Success(Text(StrippedText(cell.paragraph)))
  }

  /**
    What a raising cell raises: a date cell what its hash link raises; an
    interaction cell without its `.//div/div` block NoSuchElement, before
    its hash link is looked at; a gas-fee cell lacking either fee element
    NoSuchElement.
   */
  lemma CellErrors(column: Column, cell: Cell)
    ensures column == DateColumn && ProcessHashLink(cell.anchors).Failure? ==>
      CellValue(column, cell) == Failure(ProcessHashLink(cell.anchors).error)
    ensures column == InteractedColumn && cell.inner.None? ==> CellValue(column, cell) == Failure(ElementNotFound)
    ensures column == InteractedColumn && cell.inner.Some? && ProcessHashLink(cell.anchors).Failure? ==>
      CellValue(column, cell) == Failure(ProcessHashLink(cell.anchors).error)
    ensures column == GasFeeColumn && CellValue(column, cell).Failure? ==>
      CellValue(column, cell) == Failure(ElementNotFound)
  {
  }

  /**
    What the values hold: the hash link of the cell's first anchor, the
    `<p>` text of the interaction block (`None` when it has none), the
    anchors as transfers in order, the two fee texts and the dollar
    element's title, and the stripped `<p>` text (`None` when missing).
   */
  lemma CellContents(column: Column, cell: Cell)
    requires CellValue(column, cell).Success?
    ensures var v := CellValue(column, cell).value;
      && (column == DateColumn ==>
            ProcessHashLink(cell.anchors) == Success((v.innerHash, v.innerLink)))
      && (column == InteractedColumn ==>
            v.operation == cell.inner.value.paragraph
            && ProcessHashLink(cell.anchors) == Success((v.othersHash, v.othersLink)))
      && (column == TransferColumn ==> v.transfers == TransfersOf(cell.anchors))
      && (column == GasFeeColumn ==>
            Some(v.sourceFee) == cell.sourceFee && Some(Span(v.dollarFee, v.course)) == cell.dollarSpan)
      && (column == PlainColumn ==>
            (v.text.None? <==> cell.paragraph.None?)
            && (cell.paragraph.Some? ==> v.text.value == Strip(cell.paragraph.value)))
  {
  }

  /** Cell `i` of a row: `headers[i]` (an IndexError past the last header), then the branch it selects. */
  function CellAt(headers: seq<string>, cells: seq<Cell>, i: int): (r: Result<Value, PageError>)
    requires 0 <= i < |cells|
    ensures i >= |headers| ==> r == Failure(HeaderIndexOutOfRange)
    ensures r.Success? ==> i < |headers| && ShapeOf(r.value) == ColumnOf(headers[i])
    ensures i < |headers| ==> (r.Failure? <==> CellValue(ColumnOf(headers[i]), cells[i]).Failure?)
  {
    if i >= |headers| then Failure(HeaderIndexOutOfRange)
    else CellValue(ColumnOf(headers[i]), cells[i])
  }

  /** `data[header] = ...` for cell `i`: its value, to be stored under `headers[i]`. */
  function CellEntry(headers: seq<string>, cells: seq<Cell>, i: int): (r: Result<(string, Value), PageError>)
    requires 0 <= i < |cells|
    ensures r.Success? <==> CellAt(headers, cells, i).Success?
    ensures r.Success? ==> i < |headers| && r.value == (headers[i], CellAt(headers, cells, i).value)
    ensures r.Failure? ==> r.error == CellAt(headers, cells, i).error
  {
    match CellAt(headers, cells, i)
    case Failure(e) => Failure(e)
    case Success(v) => Success((headers[i], v))
  }

  // ---------------------------------------------------------------------
  // Rows and the table, as folds
  // ---------------------------------------------------------------------

  /** The inner loop's steps, cell by cell. */
  function CellEntries(headers: seq<string>, cells: seq<Cell>): (entries: seq<Result<(string, Value), PageError>>)
    ensures |entries| == |cells|
    ensures forall i :: 0 <= i < |cells| ==> entries[i] == CellEntry(headers, cells, i)
  {
    seq(|cells|, i requires 0 <= i < |cells| => CellEntry(headers, cells, i))
  }

  /**
    The inner loop: the row's dict, filled cell by cell; the first exception
    ends the row. A row gives a record exactly when it has no more cells than
    there are headers and every cell's branch gives a value.
   */
  function RowRecord(headers: seq<string>, cells: seq<Cell>): (r: Result<Record, PageError>)
    ensures r.Success? <==> |cells| <= |headers| && forall i :: 0 <= i < |cells| ==> CellAt(headers, cells, i).Success?
  {
    var entries := CellEntries(headers, cells);
    AssembleOk(entries);
    EntriesSucceed(headers, cells);
    Assemble(entries)
  }

  /** Every step of the inner loop gives a value exactly when no cell lies past the headers and none raises. */
  lemma EntriesSucceed(headers: seq<string>, cells: seq<Cell>)
    ensures AllSucceed(CellEntries(headers, cells)) <==>
      |cells| <= |headers| && forall i :: 0 <= i < |cells| ==> CellAt(headers, cells, i).Success?
  {
    var entries := CellEntries(headers, cells);
    forall i | 0 <= i < |cells|
      ensures entries[i].Success? <==> CellAt(headers, cells, i).Success?
    {
      assert entries[i] == CellEntry(headers, cells, i);
    }
    if |cells| > |headers| {
      assert entries[|headers|].Failure?;
    }
  }

  /** Each row's outcome, row by row. */
  function RowOutcomes(headers: seq<string>, rows: seq<seq<Cell>>): (outcomes: seq<Result<Record, PageError>>)
    ensures |outcomes| == |rows|
    ensures forall k :: 0 <= k < |rows| ==> outcomes[k] == RowRecord(headers, rows[k])
  {
    seq(|rows|, k requires 0 <= k < |rows| => RowRecord(headers, rows[k]))
  }

  /**
    The outer loop: one record appended per row, in row order; the first
    exception ends the table. So the table is built exactly when every row
    gives a record, and then holds one record per row, in row order.
   */
  function TableOf(headers: seq<string>, rows: seq<seq<Cell>>): (r: Result<seq<Record>, PageError>)
    ensures r.Success? <==> forall k :: 0 <= k < |rows| ==> RowRecord(headers, rows[k]).Success?
    ensures r.Success? ==>
      |r.value| == |rows| && forall k :: 0 <= k < |rows| ==> r.value[k] == RowRecord(headers, rows[k]).value
  {
    CollectSpec(RowOutcomes(headers, rows));
    Collect(RowOutcomes(headers, rows))
  }

  // ---------------------------------------------------------------------
  // parse_table
  // ---------------------------------------------------------------------

  /** The transfer branch's loop: appends one entry per anchor. */
  method CollectTransfers(anchors: seq<Anchor>) returns (ts: seq<Transfer>)
    ensures ts == TransfersOf(anchors)
  {
    ts := [];
    for k := 0 to |anchors|
      invariant ts == TransfersOf(anchors[..k])
    {
      assert anchors[..k + 1][..k] == anchors[..k];
      ts := ts + [Transfer(anchors[k].text, anchors[k].href)];
    }
    assert anchors[..|anchors|] == anchors;
  }

  /** The body of the inner loop for one cell under its header. */
  method ReadCell(header: string, cell: Cell) returns (r: Result<Value, PageError>)
    ensures r == CellValue(ColumnOf(header), cell)
  {
    var key := Lower(header);
    if key == "date" {
      var link := ProcessHashLink(cell.anchors);
      if link.Failure? {
        return Failure(link.error);
      }
      r := Success(HashLink(link.value.0, link.value.1));
    } else if key == "interacted with" {
      if cell.inner.None? {
        return Failure(ElementNotFound);
      }
      var operation := cell.inner.value.paragraph;
      var link := ProcessHashLink(cell.anchors);
      if link.Failure? {
        return Failure(link.error);
      }
      r := Success(Interaction(operation, link.value.0, link.value.1));
    } else if key == "transfer" {
      var ts := CollectTransfers(cell.anchors);
      r := Success(Transfers(ts));
    } else if key == "gas fee" {
      if cell.dollarSpan.None? || cell.sourceFee.None? {
        return Failure(ElementNotFound);
      }
      var span := cell.dollarSpan.value;
      r := Success(GasFee(cell.sourceFee.value, span.text, span.title));
    } else {
      r := Success(Text(StrippedText(cell.paragraph)));
    }
  }

  /**
    `parse_table`, given the header texts (or `None` when the header row
    does not appear within the 10-second wait) and the data rows' cells:
    the records in row order, or the first exception raised.
   */
  method ParseTable(headerRow: Option<seq<string>>, rows: seq<seq<Cell>>)
    returns (result: Result<seq<Record>, PageError>)
    ensures headerRow.None? ==> result == Failure(WaitTimedOut)
    ensures headerRow.Some? ==> result == TableOf(headerRow.value, rows)
  {
    if headerRow.None? {
      return Failure(WaitTimedOut);
    }
    var headers := headerRow.value;
    ghost var outcomes := RowOutcomes(headers, rows);
    var output: seq<Record> := [];
    var r := 0;
    while r < |rows|
      invariant 0 <= r <= |rows|
      invariant Collect(outcomes[..r]) == Success(output)
    {
      var blocks := rows[r];
      ghost var entries := CellEntries(headers, blocks);
      var data: Record := map[];
      var i := 0;
      while i < |blocks|
        invariant 0 <= i <= |blocks|
        invariant Assemble(entries[..i]) == Success(data)
      {
        if i >= |headers| {
          RowFails(headers, rows, r, i);
          return Failure(HeaderIndexOutOfRange);
        }
        var header := headers[i];
        var value := ReadCell(header, blocks[i]);
        if value.Failure? {
          RowFails(headers, rows, r, i);
          return Failure(value.error);
        }
        assert entries[i] == Success((header, value.value));
        AssembleStep(entries, i, data);
        data := data[header := value.value];
        i := i + 1;
      }
      assert entries[..i] == entries;
      CollectStep(outcomes, r, output);
      output := output + [data];
      r := r + 1;
    }
    assert outcomes[..r] == outcomes;
    return Success(output);
  }

  /** When every earlier row and every earlier cell of row `r` gave a value, cell `i`'s exception escapes. */
  lemma RowFails(headers: seq<string>, rows: seq<seq<Cell>>, r: int, i: int)
    requires 0 <= r < |rows| && 0 <= i < |rows[r]|
    requires Collect(RowOutcomes(headers, rows)[..r]).Success?
    requires Assemble(CellEntries(headers, rows[r])[..i]).Success?
    requires CellAt(headers, rows[r], i).Failure?
    ensures TableOf(headers, rows) == Failure(CellAt(headers, rows[r], i).error)
  {
    var entries := CellEntries(headers, rows[r]);
    AssembleOk(entries[..i]);
    assert forall j :: 0 <= j < i ==> entries[..i][j] == entries[j];
    assert FirstFailure(entries, i);
    AssembleFirstFailure(entries, i);
    var outcomes := RowOutcomes(headers, rows);
    CollectSpec(outcomes[..r]);
    assert forall k :: 0 <= k < r ==> outcomes[..r][k] == outcomes[k];
    assert FirstFailure(outcomes, r);
    CollectFirstFailure(outcomes, r);
  }

  // ---------------------------------------------------------------------
  // Properties
  // ---------------------------------------------------------------------

  /** A record has exactly the headers of the row's cells as keys. */
  lemma RowKeys(headers: seq<string>, cells: seq<Cell>)
    requires RowRecord(headers, cells).Success?
    ensures |cells| <= |headers|
    ensures RowRecord(headers, cells).value.Keys == (set i | 0 <= i < |cells| :: headers[i])
  {
    var entries := CellEntries(headers, cells);
    AssembleOk(entries);
    AssembleKeys(entries);
    forall k | 0 <= k < |entries|
      ensures entries[k].value.0 == headers[k]
    {
      assert CellEntry(headers, cells, k).Success?;
    }
    assert (set k | 0 <= k < |entries| :: entries[k].value.0) == (set i | 0 <= i < |cells| :: headers[i]);
  }

  /** Every value in a record has the shape the branch of its key builds. */
  lemma RowShapes(headers: seq<string>, cells: seq<Cell>)
    requires RowRecord(headers, cells).Success?
    ensures forall key :: key in RowRecord(headers, cells).value ==>
      ShapeOf(RowRecord(headers, cells).value[key]) == ColumnOf(key)
  {
    var entries := CellEntries(headers, cells);
    AssembleOk(entries);
    AssembleFrom(entries);
    var data := RowRecord(headers, cells).value;
    forall key | key in data
      ensures ShapeOf(data[key]) == ColumnOf(key)
    {
      var i :| 0 <= i < |entries| && entries[i] == Success((key, data[key]));
      assert CellEntry(headers, cells, i) == Success((key, data[key]));
    }
  }

  /** No cell further along the row has the same header as cell `i`. */
  predicate LastWithHeader(headers: seq<string>, n: int, i: int)
    requires 0 <= i < n <= |headers|
  {
    forall j :: i < j < n ==> headers[j] != headers[i]
  }

  /** Under a header that occurs more than once, the last such cell's value is kept. */
  lemma RowLastWins(headers: seq<string>, cells: seq<Cell>)
    requires RowRecord(headers, cells).Success?
    ensures |cells| <= |headers| && forall i :: 0 <= i < |cells| ==> CellAt(headers, cells, i).Success?
    ensures forall i :: 0 <= i < |cells| && LastWithHeader(headers, |cells|, i) ==>
      && headers[i] in RowRecord(headers, cells).value
      && RowRecord(headers, cells).value[headers[i]] == CellAt(headers, cells, i).value
  {
    var entries := CellEntries(headers, cells);
    AssembleOk(entries);
    AssembleLastWins(entries);
    forall i | 0 <= i < |cells| && LastWithHeader(headers, |cells|, i)
      ensures LastWithKey(entries, i)
    {
    }
  }

  /**
    The raised exception is that of the first cell that raises, where a
    cell past the last header raises IndexError.
   */
  lemma FirstCellError(headers: seq<string>, cells: seq<Cell>, i: int)
    requires 0 <= i < |cells| && CellAt(headers, cells, i).Failure?
    requires forall j :: 0 <= j < i ==> CellAt(headers, cells, j).Success?
    ensures RowRecord(headers, cells) == Failure(CellAt(headers, cells, i).error)
  {
    var entries := CellEntries(headers, cells);
    assert FirstFailure(entries, i);
    AssembleFirstFailure(entries, i);
  }
}
