// The CSV the /api/upload handler of server.js writes from the parsed
// model reply: a five-column header, then one line per element of
// data.transactions, with the description always quoted and the other
// four cells written bare, every falsy value blanked by `|| ""`.
module ServerCsv {
  import opened Wrappers
  import opened Decimals
  import opened JsValues
  import opened Csv

  const HeaderA: seq<string> := ["Date", "Description", "Amount", "Type", "Balance"]

  /** The TypeError for calling .replace on a truthy description that is not a string. */
  const ReplaceNotAFunction := "(tx.description || \"\").replace is not a function"

  /**
   * v || "" as Array.join prints it: empty when v is falsy, and otherwise
   * String(v), which throws for an object with its own toString key.
   */
  function OrEmpty(v: JsValue): (r: Result<string, string>)
    ensures r.Err? <==> Truthy(v) && !Printable(v)
    ensures r.Err? ==> r.error == ToPrimitiveError
    ensures r.Ok? ==> r.value == (if Truthy(v) then Printed(v) else [])
    ensures PlainValue(v) ==> r.Ok? && IsBareSafe(r.value)
  {
    PlainValueBareSafe(v);
    if Truthy(v) then ToString(v) else Ok("")
  }

  /** (tx.description || "").replace(/"/g, '""') before escaping: the text, or the TypeError. */
  function DescriptionText(v: JsValue): (r: Result<string, string>)
    ensures r.Err? <==> Truthy(v) && !v.Str?
    ensures r.Ok? ==> r.value == (if v.Str? then v.s else [])
  {
    if !Truthy(v) then Ok("")
    else if v.Str? then Ok(v.s)
    else Err(ReplaceNotAFunction)
  }

  /** join prints v || "" without throwing. */
  predicate Joinable(v: JsValue)
  {
    !Truthy(v) || Printable(v)
  }

  /** join prints the four unquoted cells of a transaction without throwing. */
  predicate JoinableRow(tx: JsValue)
  {
    Joinable(Get(tx, "date")) && Joinable(Get(tx, "amount"))
    && Joinable(Get(tx, "type")) && Joinable(Get(tx, "balance"))
  }

  /** The four unquoted cells of a transaction can be written without quotes. */
  predicate PlainRow(tx: JsValue)
  {
    PlainValue(Get(tx, "date")) && PlainValue(Get(tx, "amount"))
    && PlainValue(Get(tx, "type")) && PlainValue(Get(tx, "balance"))
  }

  /** v || "" prints with no quote and no line break (commas allowed). */
  predicate QuoteFreeText(v: JsValue)
  {
    !Truthy(v) || IsQuoteFree(Printed(v))
  }

  /** None of the four unquoted cells of a transaction holds a quote or a line break. */
  predicate QuoteFreeRow(tx: JsValue)
  {
    QuoteFreeText(Get(tx, "date")) && QuoteFreeText(Get(tx, "amount"))
    && QuoteFreeText(Get(tx, "type")) && QuoteFreeText(Get(tx, "balance"))
  }

  /**
   * The cells of one transaction's line: five of them. Reading tx.date
   * throws for a null or undefined element; .replace throws for a truthy
   * description that is not a string; and, once the five values are built,
   * join throws when String() does on one of the unquoted cells.
   */
  function RowA(tx: JsValue): (r: Result<seq<Cell>, string>)
    ensures r.Ok? ==> |r.value| == 5 && (PlainRow(tx) ==> RecordSafe(r.value))
    ensures r.Ok? <==> !IsNullish(tx) && DescriptionText(Get(tx, "description")).Ok? && JoinableRow(tx)
    ensures IsNullish(tx) ==> r == Err(PropertyReadError(tx, "date"))
    ensures !IsNullish(tx) && DescriptionText(Get(tx, "description")).Err? ==> r == Err(ReplaceNotAFunction)
    ensures !IsNullish(tx) && DescriptionText(Get(tx, "description")).Ok? && !JoinableRow(tx) ==>
      r == Err(ToPrimitiveError)
  {
    if IsNullish(tx) then Err(PropertyReadError(tx, "date"))
    else
      match DescriptionText(Get(tx, "description"))
      case Err(e) => Err(e)
      case Ok(d) =>
        var date, amount := OrEmpty(Get(tx, "date")), OrEmpty(Get(tx, "amount"));
        var kind, balance := OrEmpty(Get(tx, "type")), OrEmpty(Get(tx, "balance"));
        if date.Err? || amount.Err? || kind.Err? || balance.Err? then Err(ToPrimitiveError)
        else Ok([Bare(date.value), Quoted(d), Bare(amount.value), Bare(kind.value), Bare(balance.value)])
  }

  /** [headers.join(","), ...rows].join("\n") */
  function CsvA(txs: seq<JsValue>): Result<string, string>
  {
    match MapAll(txs, RowA)
    case Err(e) => Err(e)
    case Ok(rows) => Ok(Join(RenderRecords([BareCells(HeaderA)] + rows), "\n"))
  }

  /** The handler's JSON answer: the records, their count and the CSV written beside them, or the error's message. */
  datatype ServerResponse =
    | Extracted(count: nat, transactions: seq<JsValue>, csv: string)
    | ExtractionError(message: string)

  /** From the parsed reply on: default the transactions, build the CSV, answer. */
  function ServerUpload(data: JsValue): ServerResponse
  {
    var structured := RawTransactions(data);
    match CsvA(structured)
    case Err(e) => ExtractionError(e)
    case Ok(content) => Extracted(|structured|, structured, content)
  }

  /** The fields a reader should find on a transaction's line. */
  function FieldsA(tx: JsValue): seq<string>
    requires RowA(tx).Ok?
  {
    [OrEmpty(Get(tx, "date")).value, DescriptionText(Get(tx, "description")).value,
     OrEmpty(Get(tx, "amount")).value, OrEmpty(Get(tx, "type")).value, OrEmpty(Get(tx, "balance")).value]
  }

  lemma RowATexts(tx: JsValue, row: seq<Cell>)
    requires RowA(tx) == Ok(row)
    ensures Texts(row) == FieldsA(tx)
  {
  }

  /** The header line as written. */
  lemma HeaderALine()
    ensures RenderRecord(BareCells(HeaderA)) == "Date,Description,Amount,Type,Balance"
    ensures Texts(BareCells(HeaderA)) == HeaderA
  {
    RenderBareCells(HeaderA);
    var h := HeaderA;
    assert h == [h[0], h[1], h[2], h[3], h[4]];
    JoinFive(h[0], h[1], h[2], h[3], h[4]);
    HeaderAText();
  }

  lemma HeaderAText()
    ensures "Date" + "," + "Description" + "," + "Amount" + "," + "Type" + "," + "Balance"
            == "Date,Description,Amount,Type,Balance"
  {
  }

  lemma JoinFive(a: string, b: string, c: string, d: string, e: string)
    ensures Join([a, b, c, d, e], ",") == a + "," + b + "," + c + "," + d + "," + e
  {
    var de := d + "," + e;
    var cde := c + "," + de;
    var bcde := b + "," + cde;
    assert Join([d, e], ",") == de by { JoinCons([d, e], ","); assert [d, e][1..] == [e]; }
    assert Join([c, d, e], ",") == cde by { JoinCons([c, d, e], ","); assert [c, d, e][1..] == [d, e]; }
    assert Join([b, c, d, e], ",") == bcde by { JoinCons([b, c, d, e], ","); assert [b, c, d, e][1..] == [c, d, e]; }
    assert Join([a, b, c, d, e], ",") == a + "," + bcde by {
      JoinCons([a, b, c, d, e], ",");
      assert [a, b, c, d, e][1..] == [b, c, d, e];
    }
    ConcatAssoc(a, b, cde);
    ConcatAssoc(a + "," + b, c, de);
    ConcatAssoc(a + "," + b + "," + c, d, e);
  }

  /**
   * Read back, the file is the header and then one line per transaction in
   * input order, each of five fields: the description exactly as given
   * (quotes, commas and line breaks included, empty when missing), and the
   * other four as `value || ""` prints them.
   */
  lemma CsvAReadBack(txs: seq<JsValue>, content: string)
    requires CsvA(txs) == Ok(content)
    requires forall i :: 0 <= i < |txs| ==> PlainRow(txs[i])
    ensures ReadDocument(content).Some?
    ensures var records := ReadDocument(content).value;
      && |records| == 1 + |txs|
      && records[0] == HeaderA
      && forall i :: 0 <= i < |txs| ==> RowA(txs[i]).Ok? && records[i + 1] == FieldsA(txs[i])
  {
    var rows := CsvARendered(txs, content);
    var all := [BareCells(HeaderA)] + rows;
    var records := AllTexts(all);
    assert records[0] == HeaderA by {
      HeaderALine();
    }
    forall i | 0 <= i < |txs| ensures RowA(txs[i]).Ok? && records[i + 1] == FieldsA(txs[i]) {
      RowATextsAt(txs, BareCells(HeaderA), rows, i);
    }
  }

  /** Arrays that print safely are written like any other plain value: `[]` as an empty cell, `[5]` as `5`. */
  lemma ArrayCellsPlain()
    ensures PlainValue(Arr([])) && OrEmpty(Arr([])) == Ok("")
    ensures PlainValue(Arr([Num(Decimal(5, 0))])) && OrEmpty(Arr([Num(Decimal(5, 0))])) == Ok("5")
  {
    assert NumberText(Decimal(5, 0)) == "5";
  }

  /** The file reads back as the texts of its header and row cells. */
  lemma CsvARendered(txs: seq<JsValue>, content: string) returns (rows: seq<seq<Cell>>)
    requires CsvA(txs) == Ok(content)
    requires forall i :: 0 <= i < |txs| ==> PlainRow(txs[i])
    ensures MapAll(txs, RowA) == Ok(rows)
    ensures ReadDocument(content) == Some(AllTexts([BareCells(HeaderA)] + rows))
  {
    rows := MapAll(txs, RowA).value;
    forall i | 0 <= i < |rows| ensures |rows[i]| >= 2 && RecordSafe(rows[i]) {
      RowSafeAt(txs, rows, i);
    }
    ReadDocumentRender(rows);
    HeaderASafe();
    ReadDocumentStep(BareCells(HeaderA), rows);
  }

  lemma RowATextsAt(txs: seq<JsValue>, header: seq<Cell>, rows: seq<seq<Cell>>, i: int)
    requires MapAll(txs, RowA) == Ok(rows)
    requires 0 <= i < |txs|
    ensures RowA(txs[i]).Ok? && AllTexts([header] + rows)[i + 1] == FieldsA(txs[i])
  {
    MapAllAt(txs, RowA, rows, i);
    RowATextsIn(txs[i], header, rows, i);
  }

  lemma RowATextsIn(tx: JsValue, header: seq<Cell>, rows: seq<seq<Cell>>, i: int)
    requires 0 <= i < |rows| && RowA(tx) == Ok(rows[i])
    ensures AllTexts([header] + rows)[i + 1] == FieldsA(tx)
  {
    var all := [header] + rows;
    assert all[i + 1] == rows[i];
    assert AllTexts(all)[i + 1] == Texts(rows[i]);
    RowATexts(tx, rows[i]);
  }

  lemma RowSafeAt(txs: seq<JsValue>, rows: seq<seq<Cell>>, i: int)
    requires MapAll(txs, RowA) == Ok(rows)
    requires forall i :: 0 <= i < |txs| ==> PlainRow(txs[i])
    requires 0 <= i < |rows|
    ensures |rows[i]| >= 2 && RecordSafe(rows[i])
  {
    MapAllAt(txs, RowA, rows, i);
  }

  lemma HeaderASafe()
    ensures |BareCells(HeaderA)| == 5 && RecordSafe(BareCells(HeaderA))
  {
    var cells := BareCells(HeaderA);
    forall i | 0 <= i < 5 ensures CellSafe(cells[i]) {
      assert cells[i] == Bare(HeaderA[i]);
      assert IsBareSafe(HeaderA[i]) by {
        if i == 0 { assert HeaderA[0] == "Date"; }
        else if i == 1 { assert HeaderA[1] == "Description"; }
        else if i == 2 { assert HeaderA[2] == "Amount"; }
        else if i == 3 { assert HeaderA[3] == "Type"; }
        else { assert HeaderA[4] == "Balance"; }
      }
    }
  }

  /** With no transactions the file is the header line alone, with no line break after it. */
  lemma CsvANoTransactions()
    ensures CsvA([]) == Ok("Date,Description,Amount,Type,Balance")
  {
    HeaderALine();
    assert RenderRecords([BareCells(HeaderA)]) == [RenderRecord(BareCells(HeaderA))];
  }

  /**
   * A falsy amount or balance (0, "", false, missing) is written as an
   * empty cell, and a missing description as an empty quoted cell.
   */
  lemma FalsyCellsBlank(tx: JsValue)
    requires RowA(tx).Ok?
    ensures !Truthy(Get(tx, "amount")) ==> RowA(tx).value[2] == Bare("")
    ensures !Truthy(Get(tx, "balance")) ==> RowA(tx).value[4] == Bare("")
    ensures !Truthy(Get(tx, "description")) ==> Render(RowA(tx).value[1]) == "\"\""
  {
  }

  /** In particular a zero amount is written as an empty cell, not as "0". */
  lemma ZeroAmountBlank(tx: JsValue, d: Decimal)
    requires RowA(tx).Ok? && Get(tx, "amount") == Num(d) && d.mantissa == 0
    ensures Render(RowA(tx).value[2]) == ""
  {
  }

  /** A description that is truthy but not a string (a number, an object) makes the handler answer with the TypeError. */
  lemma NonStringDescriptionFails(data: JsValue, i: nat)
    requires i < |RawTransactions(data)|
    requires forall k :: 0 <= k < i ==> RowA(RawTransactions(data)[k]).Ok?
    requires var tx := RawTransactions(data)[i];
      !IsNullish(tx) && Truthy(Get(tx, "description")) && !Get(tx, "description").Str?
    ensures ServerUpload(data) == ExtractionError(ReplaceNotAFunction)
  {
  }

  /**
   * A truthy date, amount, type or balance parsed from {"toString": ...}
   * makes join throw, and the handler answers with String()'s TypeError.
   */
  lemma UnprintableCellFails(data: JsValue, i: nat)
    requires i < |RawTransactions(data)|
    requires forall k :: 0 <= k < i ==> RowA(RawTransactions(data)[k]).Ok?
    requires var tx := RawTransactions(data)[i];
      !IsNullish(tx) && DescriptionText(Get(tx, "description")).Ok? && !JoinableRow(tx)
    ensures ServerUpload(data) == ExtractionError(ToPrimitiveError)
  {
  }

  /**
   * The answer carries every record unfiltered and count is their number;
   * it fails exactly when a record's line cannot be built, the first null
   * or undefined record yielding the property-read TypeError, and every
   * failure carries one of the three TypeErrors a line can throw.
   */
  lemma ServerUploadSpec(data: JsValue)
    ensures ServerUpload(data).Extracted? ==>
      var r := ServerUpload(data);
      r.transactions == RawTransactions(data) && r.count == |r.transactions|
    ensures (forall i :: 0 <= i < |RawTransactions(data)| ==> RowA(RawTransactions(data)[i]).Ok?)
            <==> ServerUpload(data).Extracted?
    ensures RawTransactions(data) != [] && IsNullish(RawTransactions(data)[0]) ==>
      ServerUpload(data) == ExtractionError(PropertyReadError(RawTransactions(data)[0], "date"))
    ensures ServerUpload(data).ExtractionError? ==>
      var m := ServerUpload(data).message;
      m == PropertyReadError(Null, "date") || m == PropertyReadError(Undefined, "date")
      || m == ReplaceNotAFunction || m == ToPrimitiveError
  {
  }

  /**
   * The count in the answer is the number of data lines in the file, for
   * records whose four unquoted cells hold no quote and no line break: an
   * unquoted comma shifts the record's columns (UnquotedCommaShiftsColumns)
   * but keeps it on one line.
   */
  lemma ServerCountIsRowCount(data: JsValue)
    requires ServerUpload(data).Extracted?
    requires forall i :: 0 <= i < |RawTransactions(data)| ==> QuoteFreeRow(RawTransactions(data)[i])
    ensures var r := ServerUpload(data);
      ReadDocument(r.csv).Some? && |ReadDocument(r.csv).value| == 1 + r.count
  {
    var txs := RawTransactions(data);
    var rows := MapAll(txs, RowA).value;
    var all := [BareCells(HeaderA)] + rows;
    forall i | 0 <= i < |all| ensures |all[i]| >= 2 && RecordQuoteFree(all[i]) {
      if i == 0 {
        HeaderASafe();
      } else {
        RowQuoteFreeAt(txs, rows, i - 1);
      }
    }
    ReadQuoteFreeDocument(all);
  }

  lemma RowQuoteFreeAt(txs: seq<JsValue>, rows: seq<seq<Cell>>, i: int)
    requires MapAll(txs, RowA) == Ok(rows)
    requires forall i :: 0 <= i < |txs| ==> QuoteFreeRow(txs[i])
    requires 0 <= i < |rows|
    ensures |rows[i]| >= 2 && RecordQuoteFree(rows[i])
  {
    MapAllAt(txs, RowA, rows, i);
    RowQuoteFree(txs[i], rows[i]);
  }

  /** A line built from a transaction with quote-free unquoted values is quote-free. */
  lemma RowQuoteFree(tx: JsValue, row: seq<Cell>)
    requires RowA(tx) == Ok(row) && QuoteFreeRow(tx)
    ensures |row| >= 2 && RecordQuoteFree(row)
  {
  }

  /**
   * The four unquoted cells are not escaped: an amount such as "1,234.50"
   * reads back as two fields, and the line as six fields instead of five.
   */
  lemma UnquotedCommaShiftsColumns(tx: JsValue, x: string, y: string, content: string)
    requires CsvA([tx]) == Ok(content)
    requires Get(tx, "amount") == Str(x + "," + y) && IsBareSafe(x) && IsBareSafe(y)
    requires PlainValue(Get(tx, "date")) && PlainValue(Get(tx, "type")) && PlainValue(Get(tx, "balance"))
    ensures ReadDocument(content).Some?
    ensures |ReadDocument(content).value| == 2 && |ReadDocument(content).value[1]| == 6
  {
    var split := SplitAmountFile(tx, x, y, content);
    ReadTwoRecords(BareCells(HeaderA), split);
  }

  /** The file for such a transaction is the file of a six-cell record, every cell written safely. */
  lemma SplitAmountFile(tx: JsValue, x: string, y: string, content: string) returns (split: seq<Cell>)
    requires CsvA([tx]) == Ok(content)
    requires Get(tx, "amount") == Str(x + "," + y) && IsBareSafe(x) && IsBareSafe(y)
    requires PlainValue(Get(tx, "date")) && PlainValue(Get(tx, "type")) && PlainValue(Get(tx, "balance"))
    ensures |split| == 6 && RecordSafe(split)
    ensures content == Join(RenderRecords([BareCells(HeaderA), split]), "\n")
  {
    var header := BareCells(HeaderA);
    var row := CsvASingle(tx, content);
    split := [row[0], row[1], Bare(x), Bare(y), row[3], row[4]];
    assert content == Join(RenderRecords([header, split]), "\n") by {
      SplitAmountRender(row, x, y);
      assert RenderRecords([header, row]) == RenderRecords([header, split]);
    }
    assert RecordSafe(split) by {
      assert CellSafe(row[0]) && CellSafe(row[1]) && CellSafe(row[3]) && CellSafe(row[4]);
    }
  }

  /** A header and one record, both safe, read back as two records with their own numbers of fields. */
  lemma ReadTwoRecords(header: seq<Cell>, record: seq<Cell>)
    requires header == BareCells(HeaderA)
    requires |record| >= 2 && RecordSafe(record)
    ensures ReadDocument(Join(RenderRecords([header, record]), "\n")) == Some([Texts(header), Texts(record)])
  {
    HeaderASafe();
    ReadDocumentRender([header, record]);
    assert AllTexts([header, record]) == [Texts(header), Texts(record)];
  }

  /** The file written for a single transaction: the header line and that transaction's line. */
  lemma CsvASingle(tx: JsValue, content: string) returns (row: seq<Cell>)
    requires CsvA([tx]) == Ok(content)
    ensures RowA(tx) == Ok(row)
    ensures content == Join(RenderRecords([BareCells(HeaderA), row]), "\n")
  {
    var rows := MapAll([tx], RowA).value;
    MapAllAt([tx], RowA, rows, 0);
    row := rows[0];
    assert rows == [row];
    assert [BareCells(HeaderA)] + [row] == [BareCells(HeaderA), row];
  }

  /** A bare "x,y" in the third cell renders like two bare cells x and y. */
  lemma SplitAmountRender(row: seq<Cell>, x: string, y: string)
    requires |row| == 5 && row[2] == Bare(x + "," + y)
    ensures RenderRecord(row) == RenderRecord([row[0], row[1], Bare(x), Bare(y), row[3], row[4]])
  {
    var front, back := [row[0], row[1]], [row[3], row[4]];
    assert row == front + [Bare(x + "," + y)] + back;
    BareCommaSplits(front, x, y, back);
    assert front + [Bare(x), Bare(y)] + back == [row[0], row[1], Bare(x), Bare(y), row[3], row[4]];
  }
}
