// The POST /upload route of api/routes/uploadRoutes.js: it runs the
// services extractor, writes an eight-column CSV of the records it returns
// (strings quoted with quotes doubled, null and undefined blank, every
// other value as String(v)), and answers with the records and their count.
module UploadRoute {
  import opened Wrappers
  import opened Decimals
  import opened JsValues
  import opened Csv
  import opened JsonRecovery

  const HeaderB: seq<string> := ["id", "userId", "date", "description", "amount", "type", "category", "balance"]

  const NoFileMessage := "No file uploaded"
  const ProcessingFailedMessage := "Error processing file"
  const ExtractedMessage := "Transactions extracted"

  /**
   * The cell written for the value tx[h]: empty for null and undefined, a
   * quoted cell for a string, String(v) unquoted otherwise, and String()'s
   * TypeError for an object with its own toString key. Only an array's
   * String() can hold a "," or a quote, so every other value gives a cell
   * a reader splits correctly.
   */
  function CellB(v: JsValue): (c: Result<Cell, string>)
    ensures c.Err? <==> !Printable(v)
    ensures c.Err? ==> c.error == ToPrimitiveError
    ensures c.Ok? ==> (c.value.Quoted? <==> v.Str?)
    ensures c.Ok? && !v.Arr? ==> CellSafe(c.value)
  {
    PlainValueBareSafe(v);
    if IsNullish(v) then Ok(Bare(""))
    else if v.Str? then Ok(Quoted(v.s))
    else
      match ToString(v)
      case Err(e) => Err(e)
      case Ok(text) => Ok(Bare(text))
  }

  /** The text a reader should find in the cell of v. */
  function ValueText(v: JsValue): string
  {
    if IsNullish(v) then "" else if v.Str? then v.s else Printed(v)
  }

  /** String() throws on none of the header fields of tx. */
  predicate PrintableTx(tx: JsValue)
  {
    forall k :: 0 <= k < |HeaderB| ==> Printable(Get(tx, HeaderB[k]))
  }

  /** None of the header fields of tx holds an array. */
  predicate PlainTx(tx: JsValue)
  {
    forall k :: 0 <= k < |HeaderB| ==> !Get(tx, HeaderB[k]).Arr?
  }

  /** Every header field of tx that is written unquoted prints with no quote and no line break. */
  predicate QuoteFreeTx(tx: JsValue)
  {
    forall k :: 0 <= k < |HeaderB| ==> Get(tx, HeaderB[k]).Str? || IsQuoteFree(ValueText(Get(tx, HeaderB[k])))
  }

  /**
   * headers.map(h => ...) for one transaction: a cell per header name in
   * header order; reading tx[h] throws for a null or undefined element,
   * and String() for a field it cannot print.
   */
  function RowB(tx: JsValue): (r: Result<seq<Cell>, string>)
    ensures r.Ok? <==> !IsNullish(tx) && PrintableTx(tx)
    ensures IsNullish(tx) ==> r.error == PropertyReadError(tx, "id")
    ensures !IsNullish(tx) && !PrintableTx(tx) ==> r.error == ToPrimitiveError
    ensures r.Ok? ==> |r.value| == |HeaderB| && (PlainTx(tx) ==> RecordSafe(r.value))
  {
    if IsNullish(tx) then Err(PropertyReadError(tx, "id"))
    else if !PrintableTx(tx) then Err(ToPrimitiveError)
    else Ok(seq(|HeaderB|, k requires 0 <= k < |HeaderB| => CellB(Get(tx, HeaderB[k])).value))
  }

  /** The fields a reader should find on a transaction's line. */
  function FieldsB(tx: JsValue): (r: seq<string>)
    ensures |r| == |HeaderB|
  {
    seq(|HeaderB|, k requires 0 <= k < |HeaderB| => ValueText(Get(tx, HeaderB[k])))
  }

  function FieldsOf(txs: seq<JsValue>): (r: seq<seq<string>>)
    ensures |r| == |txs|
    ensures forall i :: 0 <= i < |txs| ==> r[i] == FieldsB(txs[i])
  {
    seq(|txs|, i requires 0 <= i < |txs| => FieldsB(txs[i]))
  }

  /** headers.join(",") + "\n" + csvRows.join("\n"), or the error a row threw. */
  function CsvB(txs: seq<JsValue>): Result<string, string>
  {
    match MapAll(txs, RowB)
    case Err(e) => Err(e)
    case Ok(rows) => Ok(Join(HeaderB, ",") + "\n" + Join(RenderRecords(rows), "\n"))
  }

  /** The route's JSON answer. */
  datatype UploadResponse =
    | Accepted(message: string, count: nat, transactions: seq<JsValue>, csv: string)
    | Rejected(error: string)

  /**
   * The route after the PDF's text has gone through the extractor: no file,
   * a failed extraction, and a throw while building the CSV each answer
   * with an error; otherwise the records, their count and the CSV.
   */
  function HandleUpload(hasFile: bool, extraction: ExtractionResult<JsValue>): UploadResponse
  {
    if !hasFile then Rejected(NoFileMessage)
    else
      match extraction
      case Failed(e) => Rejected(e)
      case Succeeded(_, transactions) =>
        match CsvB(transactions)
        case Err(_) => Rejected(ProcessingFailedMessage)
        case Ok(csv) => Accepted(ExtractedMessage, |transactions|, transactions, csv)
  }

  // ------------------------------------------------------------ the header

  lemma HeaderBSafe()
    ensures |BareCells(HeaderB)| == 8 && RecordSafe(BareCells(HeaderB))
  {
    var cells := BareCells(HeaderB);
    forall k | 0 <= k < 8 ensures CellSafe(cells[k]) {
      assert cells[k] == Bare(HeaderB[k]);
      assert IsBareSafe(HeaderB[k]) by {
        if k == 0 { assert HeaderB[0] == "id"; }
        else if k == 1 { assert HeaderB[1] == "userId"; }
        else if k == 2 { assert HeaderB[2] == "date"; }
        else if k == 3 { assert HeaderB[3] == "description"; }
        else if k == 4 { assert HeaderB[4] == "amount"; }
        else if k == 5 { assert HeaderB[5] == "type"; }
        else if k == 6 { assert HeaderB[6] == "category"; }
        else { assert HeaderB[7] == "balance"; }
      }
    }
  }

  lemma HeaderBFront()
    ensures Join(["id", "userId", "date", "description"], ",") == "id,userId,date,description"
  {
  }

  lemma HeaderBBack()
    ensures Join(["amount", "type", "category", "balance"], ",") == "amount,type,category,balance"
  {
  }

  /** The first line of the file. */
  lemma HeaderBLine()
    ensures Join(HeaderB, ",") == "id,userId,date,description,amount,type,category,balance"
  {
    var front, back := ["id", "userId", "date", "description"], ["amount", "type", "category", "balance"];
    assert Join(HeaderB, ",") == Join(front, ",") + "," + Join(back, ",") by {
      assert HeaderB == front + back;
      JoinAppend(front, back);
    }
    HeaderBFront();
    HeaderBBack();
    HeaderBHalves();
  }

  lemma HeaderBHalves()
    ensures "id,userId,date,description" + "," + "amount,type,category,balance"
            == "id,userId,date,description,amount,type,category,balance"
  {
  }

  /** With no transactions the file is the header and one line break. */
  lemma CsvBNoTransactions()
    ensures CsvB([]) == Ok("id,userId,date,description,amount,type,category,balance\n")
  {
    var none: seq<seq<Cell>> := [];
    assert MapAll([], RowB) == Ok(none);
    assert Join(RenderRecords(none), "\n") == "" by {
      assert RenderRecords(none) == [];
    }
    HeaderBLine();
    HeaderBLineBreak();
  }

  lemma HeaderBLineBreak()
    ensures "id,userId,date,description,amount,type,category,balance" + "\n" + ""
            == "id,userId,date,description,amount,type,category,balance\n"
  {
  }

  // --------------------------------------------------------------- the cells

  /** A string is written quoted with its quotes doubled, and un-doubling the inside gives it back; "" becomes two quotes. */
  lemma CellBString(s: string)
    ensures CellB(Str(s)).Ok?
    ensures var r := Render(CellB(Str(s)).value);
      |r| >= 2 && r[0] == '"' && r[|r| - 1] == '"' && Unescape(r[1..|r| - 1]) == Some(s)
    ensures s == [] ==> Render(CellB(Str(s)).value) == "\"\""
  {
    var r := Render(CellB(Str(s)).value);
    assert r[1..|r| - 1] == Escape(s);
    UnescapeEscape(s);
  }

  /**
   * null and undefined give an empty cell, any other non-string value its
   * String() unquoted, and an object with its own toString key throws.
   */
  lemma CellBNonString(v: JsValue)
    requires !v.Str?
    ensures IsNullish(v) ==> CellB(v) == Ok(Bare(""))
    ensures !IsNullish(v) ==> CellB(v) == (if Printable(v) then Ok(Bare(Printed(v))) else Err(ToPrimitiveError))
    ensures v.Obj? ==> (CellB(v).Err? <==> "toString" in v.fields)
  {
  }

  /** A numeric zero is written "0": unlike the server.js file, zero is not blanked. */
  lemma CellBZero(d: Decimal)
    requires d.mantissa == 0
    ensures CellB(Num(d)) == Ok(Bare("0"))
  {
    NormalizedZero(d);
    assert NumberText(d) == "0";
    assert Printed(Num(d)) == "0";
  }

  /** The line of a transaction depends on the eight header keys only: any other property is never written. */
  lemma RowBHeaderKeysOnly(tx1: JsValue, tx2: JsValue)
    requires !IsNullish(tx1) && !IsNullish(tx2)
    requires forall k :: 0 <= k < |HeaderB| ==> Get(tx1, HeaderB[k]) == Get(tx2, HeaderB[k])
    ensures RowB(tx1) == RowB(tx2)
  {
    if PrintableTx(tx1) {
      assert PrintableTx(tx2);
      assert RowB(tx1).value == RowB(tx2).value;
    }
  }

  /** Adding or changing a property outside the header leaves the line as it was. */
  lemma ExtraKeyIgnored(fields: map<string, JsValue>, key: string, v: JsValue)
    requires key !in HeaderB
    ensures RowB(Obj(fields[key := v])) == RowB(Obj(fields))
  {
    forall k | 0 <= k < |HeaderB| ensures Get(Obj(fields[key := v]), HeaderB[k]) == Get(Obj(fields), HeaderB[k]) {
      assert HeaderB[k] != key;
    }
    RowBHeaderKeysOnly(Obj(fields[key := v]), Obj(fields));
  }

  // ----------------------------------------------------------- the read-back

  lemma RowBTexts(tx: JsValue)
    requires RowB(tx).Ok?
    ensures Texts(RowB(tx).value) == FieldsB(tx)
  {
    var cells := RowB(tx).value;
    forall k | 0 <= k < |HeaderB| ensures cells[k].text == FieldsB(tx)[k] {
      assert cells[k] == CellB(Get(tx, HeaderB[k])).value;
    }
  }

  lemma RowBSafeAt(txs: seq<JsValue>, rows: seq<seq<Cell>>, i: int)
    requires MapAll(txs, RowB) == Ok(rows)
    requires forall i :: 0 <= i < |txs| ==> PlainTx(txs[i])
    requires 0 <= i < |rows|
    ensures |rows[i]| >= 2 && RecordSafe(rows[i])
  {
    MapAllAt(txs, RowB, rows, i);
  }

  lemma RowBTextsIn(tx: JsValue, rows: seq<seq<Cell>>, i: int)
    requires 0 <= i < |rows| && RowB(tx) == Ok(rows[i])
    ensures AllTexts(rows)[i] == FieldsB(tx)
  {
    assert AllTexts(rows)[i] == Texts(rows[i]);
    RowBTexts(tx);
  }

  /**
   * Read back, the file is the header and then one line per transaction in
   * input order, each of eight fields in header order: strings exactly as
   * given (quotes, commas and line breaks included), null and undefined as
   * empty fields, anything else as its String(). Arrays are excluded: their
   * String() is written unquoted and may hold commas.
   */
  lemma CsvBReadBack(txs: seq<JsValue>, content: string)
    requires CsvB(txs) == Ok(content)
    requires forall i :: 0 <= i < |txs| ==> PlainTx(txs[i])
    ensures ReadDocument(content) == Some([HeaderB] + FieldsOf(txs))
  {
    var rows := MapAll(txs, RowB).value;
    forall i | 0 <= i < |rows| ensures |rows[i]| >= 2 && RecordSafe(rows[i]) {
      RowBSafeAt(txs, rows, i);
    }
    HeaderBSafe();
    RenderBareCells(HeaderB);
    ReadHeaderAndRecords(BareCells(HeaderB), rows);
    assert AllTexts(rows) == FieldsOf(txs) by {
      forall i | 0 <= i < |rows| ensures AllTexts(rows)[i] == FieldsOf(txs)[i] {
        MapAllAt(txs, RowB, rows, i);
        RowBTextsIn(txs[i], rows, i);
      }
    }
  }

  // -------------------------------------------------------------- the route

  /**
   * The route's answer: an error without a file, the extractor's own error,
   * the fixed processing error when a record is null or undefined or holds
   * a field String() throws on, and otherwise every extracted record with
   * count their number.
   */
  lemma HandleUploadSpec(hasFile: bool, extraction: ExtractionResult<JsValue>)
    ensures !hasFile ==> HandleUpload(hasFile, extraction) == Rejected(NoFileMessage)
    ensures hasFile && extraction.Failed? ==> HandleUpload(hasFile, extraction) == Rejected(extraction.error)
    ensures HandleUpload(hasFile, extraction).Accepted? <==>
      (hasFile && extraction.Succeeded?
       && forall i :: 0 <= i < |extraction.transactions| ==>
            !IsNullish(extraction.transactions[i]) && PrintableTx(extraction.transactions[i]))
    ensures hasFile && extraction.Succeeded? && HandleUpload(hasFile, extraction).Rejected? ==>
      HandleUpload(hasFile, extraction).error == ProcessingFailedMessage
    ensures HandleUpload(hasFile, extraction).Accepted? ==>
      var r := HandleUpload(hasFile, extraction);
      r.message == ExtractedMessage && r.transactions == extraction.transactions
      && r.count == |r.transactions|
  {
  }

  /**
   * The count in the answer is the number of data lines in the file, for
   * records whose unquoted fields print with no quote and no line break;
   * an array's String(), such as "Food,Bills", may hold commas and then
   * reads back as more fields, but still on one line.
   */
  lemma CountIsRowCount(hasFile: bool, extraction: ExtractionResult<JsValue>)
    requires HandleUpload(hasFile, extraction).Accepted?
    requires forall i :: 0 <= i < |extraction.transactions| ==> QuoteFreeTx(extraction.transactions[i])
    ensures var r := HandleUpload(hasFile, extraction);
      ReadDocument(r.csv).Some? && |ReadDocument(r.csv).value| == 1 + r.count
  {
    var txs := extraction.transactions;
    var rows := MapAll(txs, RowB).value;
    forall i | 0 <= i < |rows| ensures |rows[i]| >= 2 && RecordQuoteFree(rows[i]) {
      assert QuoteFreeTx(txs[i]);
      RowBQuoteFreeAt(txs, rows, i);
    }
    HeaderBSafe();
    RenderBareCells(HeaderB);
    ReadHeaderAndQuoteFreeRecords(BareCells(HeaderB), rows);
  }

  lemma RowBQuoteFreeAt(txs: seq<JsValue>, rows: seq<seq<Cell>>, i: nat)
    requires MapAll(txs, RowB) == Ok(rows) && i < |txs| && QuoteFreeTx(txs[i])
    ensures i < |rows| && |rows[i]| >= 2 && RecordQuoteFree(rows[i])
  {
    MapAllAt(txs, RowB, rows, i);
    RowBQuoteFree(txs[i], rows[i]);
  }

  /** A line built from a transaction whose unquoted fields are quote-free is quote-free. */
  lemma RowBQuoteFree(tx: JsValue, cells: seq<Cell>)
    requires RowB(tx) == Ok(cells) && QuoteFreeTx(tx)
    ensures |cells| >= 2 && RecordQuoteFree(cells)
  {
    RowBTexts(tx);
    forall k | 0 <= k < |cells| ensures cells[k].Quoted? || IsQuoteFree(cells[k].text) {
      assert cells[k] == CellB(Get(tx, HeaderB[k])).value;
      assert cells[k].text == FieldsB(tx)[k];
    }
  }

  /**
   * End to end with the services extractor: the records the route answers
   * with are exactly data.transactions as parsed, unfiltered.
   */
  lemma UploadPassesRecordsThrough(content: string, parse: string -> Option<JsValue>,
                                   repair: string -> Option<string>, data: JsValue)
    requires LocateJson(Some(content)).Some?
    requires ParseWithFallback(LocateJson(Some(content)).value, parse, repair) == Ok(data)
    requires !IsNullish(data)
    requires var txs := ArrayOrEmpty(Get(data, "transactions"));
      forall i :: 0 <= i < |txs| ==> !IsNullish(txs[i]) && PrintableTx(txs[i])
    ensures var r := HandleUpload(true, ExtractServices(Reply(Some(content)), parse, repair));
      r.Accepted? && r.transactions == ArrayOrEmpty(Get(data, "transactions"))
      && r.count == |r.transactions|
  {
    ExtractServicesPassesThrough(content, parse, repair, data);
  }
}
