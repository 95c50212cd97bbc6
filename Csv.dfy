// The CSV text both upload handlers write: cells written bare or wrapped in
// double quotes with inner quotes doubled (s.replace(/"/g, '""')), cells of
// a row joined by ",", rows joined by "\n". Beside the writer sits a reader
// for RFC 4180 with LF line breaks (records end at "\n", not CRLF; quoted
// fields may hold ",", "\"" and line breaks), which is what the round-trip
// lemmas read the written text back with.
module Csv {
  import opened Wrappers
  import opened Decimals
  import opened JsValues

  /** A cell as written: its text verbatim, or quoted with inner quotes doubled. */
  datatype Cell = Bare(text: string) | Quoted(text: string)

  /** s.replace(/"/g, '""'): every double quote doubled, everything else kept. */
  function Escape(s: string): (r: string)
    ensures |r| >= |s|
  {
    if s == [] then []
    else (if s[0] == '"' then "\"\"" else [s[0]]) + Escape(s[1..])
  }

  /** Undoes the doubling; fails on a quote that is not doubled. */
  function Unescape(e: string): Option<string>
  {
    if e == [] then Some([])
    else if e[0] == '"' then
      if |e| >= 2 && e[1] == '"' then
        match Unescape(e[2..])
        case None => None
        case Some(s) => Some("\"" + s)
      else None
    else
      match Unescape(e[1..])
      case None => None
      case Some(s) => Some([e[0]] + s)
  }

  /** Un-doubling recovers every escaped text ... */
  lemma {:induction false} UnescapeEscape(s: string)
    ensures Unescape(Escape(s)) == Some(s)
  {
    if s != [] {
      UnescapeEscape(s[1..]);
      var head := if s[0] == '"' then "\"\"" else [s[0]];
      assert Escape(s) == head + Escape(s[1..]);
      assert (head + Escape(s[1..]))[|head|..] == Escape(s[1..]);
      assert [s[0]] + s[1..] == s;
    }
  }

  /** ... and only escaped texts un-double: Unescape and Escape are inverse bijections. */
  lemma {:induction false} EscapeUnescape(e: string, s: string)
    requires Unescape(e) == Some(s)
    ensures Escape(s) == e
  {
    if e != [] {
      if e[0] == '"' {
        var s' := Unescape(e[2..]).value;
        EscapeUnescape(e[2..], s');
        assert s == "\"" + s' && s[1..] == s';
        assert e == "\"\"" + e[2..];
      } else {
        var s' := Unescape(e[1..]).value;
        EscapeUnescape(e[1..], s');
        assert s == [e[0]] + s' && s[1..] == s';
        assert e == [e[0]] + e[1..];
      }
    }
  }

  function Render(c: Cell): string
  {
    match c
    case Bare(t) => t
    case Quoted(t) => "\"" + Escape(t) + "\""
  }

  function Renders(cells: seq<Cell>): (r: seq<string>)
    ensures |r| == |cells|
    ensures forall i :: 0 <= i < |cells| ==> r[i] == Render(cells[i])
  {
    seq(|cells|, i requires 0 <= i < |cells| => Render(cells[i]))
  }

  /** One line of the file: the rendered cells joined by ",". */
  function RenderRecord(cells: seq<Cell>): string
  {
    Join(Renders(cells), ",")
  }

  /** The cells' texts, as a reader should recover them. */
  function Texts(cells: seq<Cell>): (r: seq<string>)
    ensures |r| == |cells|
    ensures forall i :: 0 <= i < |cells| ==> r[i] == cells[i].text
  {
    seq(|cells|, i requires 0 <= i < |cells| => cells[i].text)
  }

  function RenderRecords(records: seq<seq<Cell>>): (r: seq<string>)
    ensures |r| == |records|
    ensures forall i :: 0 <= i < |records| ==> r[i] == RenderRecord(records[i])
  {
    seq(|records|, i requires 0 <= i < |records| => RenderRecord(records[i]))
  }

  function AllTexts(records: seq<seq<Cell>>): (r: seq<seq<string>>)
    ensures |r| == |records|
    ensures forall i :: 0 <= i < |records| ==> r[i] == Texts(records[i])
  {
    seq(|records|, i requires 0 <= i < |records| => Texts(records[i]))
  }

  /** Text that can be written without quotes: no separator, no quote, no line break. */
  predicate IsBareSafe(s: string)
  {
    forall i :: 0 <= i < |s| ==> s[i] != ',' && s[i] != '"' && s[i] != '\n'
  }

  predicate CellSafe(c: Cell)
  {
    c.Quoted? || IsBareSafe(c.text)
  }

  predicate RecordSafe(cells: seq<Cell>)
  {
    forall i :: 0 <= i < |cells| ==> CellSafe(cells[i])
  }

  /** A header line's cells: the names, unquoted. */
  function BareCells(names: seq<string>): (r: seq<Cell>)
    ensures |r| == |names|
    ensures forall i :: 0 <= i < |names| ==> r[i] == Bare(names[i])
  {
    seq(|names|, i requires 0 <= i < |names| => Bare(names[i]))
  }

  /** A header line is its names joined by ",". */
  lemma RenderBareCells(names: seq<string>)
    ensures RenderRecord(BareCells(names)) == Join(names, ",")
    ensures Texts(BareCells(names)) == names
  {
    assert Renders(BareCells(names)) == names;
  }

  /**
   * A value whose String() form can be written unquoted: anything but a
   * string needing quotes, an object String() throws on, or an array whose
   * String() throws or holds a comma, a quote or a line break.
   */
  predicate PlainValue(v: JsValue)
  {
    match v
    case Str(s) => IsBareSafe(s)
    case Arr(_) => Printable(v) && IsBareSafe(Printed(v))
    case Obj(fields) => "toString" !in fields
    case _ => true
  }

  lemma PlainValueBareSafe(v: JsValue)
    ensures PlainValue(v) ==> Printable(v) && IsBareSafe(Printed(v))
  {
    if v.Num? {
      NumberTextBareSafe(v.n);
    }
  }

  /** A number prints with digits, "-" and "." only. */
  lemma NumberTextBareSafe(d: Decimal)
    ensures IsBareSafe(NumberText(d))
  {
  }

  // ---------------------------------------------------------------- reader

  /**
   * The rest of a quoted field after its opening quote: the un-doubled
   * text up to the closing quote, and what follows that quote.
   */
  function ReadQuoted(s: string): (r: Option<(string, string)>)
    ensures r.Some? ==> |r.value.1| < |s|
  {
    if s == [] then None
    else if s[0] == '"' then
      if |s| >= 2 && s[1] == '"' then
        match ReadQuoted(s[2..])
        case None => None
        case Some((t, rest)) => Some(("\"" + t, rest))
      else Some(([], s[1..]))
    else
      match ReadQuoted(s[1..])
      case None => None
      case Some((t, rest)) => Some(([s[0]] + t, rest))
  }

  /** Length of the bare field at the start of s: up to the first "," or line break. */
  function BareLength(s: string): (n: nat)
    ensures n <= |s|
    ensures forall i :: 0 <= i < n ==> s[i] != ',' && s[i] != '\n'
    ensures n < |s| ==> s[n] == ',' || s[n] == '\n'
  {
    if s == [] || s[0] == ',' || s[0] == '\n' then 0 else 1 + BareLength(s[1..])
  }

  /** One field at the start of s: its text and what follows it. */
  function ReadField(s: string): (r: Option<(string, string)>)
    ensures r.Some? ==> |r.value.1| <= |s|
  {
    if s != [] && s[0] == '"' then ReadQuoted(s[1..])
    else
      var n := BareLength(s);
      Some((s[..n], s[n..]))
  }

  /** One record at the start of s: its fields, and the text after its line break. */
  function ReadRecord(s: string): (r: Option<(seq<string>, string)>)
    ensures r.Some? ==> |r.value.1| <= |s| && (s != [] ==> |r.value.1| < |s|)
    decreases |s|
  {
    match ReadField(s)
    case None => None
    case Some((f, rest)) =>
      if rest == [] then Some(([f], []))
      else if rest[0] == '\n' then Some(([f], rest[1..]))
      else if rest[0] == ',' then
        match ReadRecord(rest[1..])
        case None => None
        case Some((fs, tail)) => Some(([f] + fs, tail))
      else None
  }

  /** All records of a file; a final line break ends the last record and starts no new one. */
  function ReadDocument(s: string): Option<seq<seq<string>>>
    decreases |s|
  {
    if s == [] then Some([])
    else
      match ReadRecord(s)
      case None => None
      case Some((fields, rest)) =>
        match ReadDocument(rest)
        case None => None
        case Some(records) => Some([fields] + records)
  }

  // ----------------------------------------------------------- round trips

  /** A quoted field's body reads back as the text that was escaped, stopping at its closing quote. */
  lemma {:induction false} ReadQuotedEscape(t: string, rest: string)
    requires rest == [] || rest[0] != '"'
    ensures ReadQuoted(Escape(t) + "\"" + rest) == Some((t, rest))
  {
    var s := Escape(t) + "\"" + rest;
    if t == [] {
      assert s == "\"" + rest;
      assert s[1..] == rest;
    } else {
      ReadQuotedEscape(t[1..], rest);
      var head := if t[0] == '"' then "\"\"" else [t[0]];
      assert s == head + (Escape(t[1..]) + "\"" + rest);
      assert s[|head|..] == Escape(t[1..]) + "\"" + rest;
      assert [t[0]] + t[1..] == t;
    }
  }

  predicate EndsField(rest: string)
  {
    rest == [] || rest[0] == ',' || rest[0] == '\n'
  }

  /** A written cell reads back as its text, when what follows ends the field. */
  lemma ReadFieldRender(c: Cell, rest: string)
    requires CellSafe(c) && EndsField(rest)
    ensures ReadField(Render(c) + rest) == Some((c.text, rest))
  {
    if c.Quoted? {
      ReadQuotedField(c.text, rest);
    } else {
      ReadBareField(c.text, rest);
    }
  }

  lemma ReadQuotedField(t: string, rest: string)
    requires EndsField(rest)
    ensures ReadField(Render(Quoted(t)) + rest) == Some((t, rest))
  {
    var s := Render(Quoted(t)) + rest;
    ReadQuotedEscape(t, rest);
    assert s[1..] == Escape(t) + "\"" + rest;
  }

  lemma ReadBareField(t: string, rest: string)
    requires IsBareSafe(t) && EndsField(rest)
    ensures ReadField(Render(Bare(t)) + rest) == Some((t, rest))
  {
    var s := t + rest;
    BareRun(t, rest);
    assert s[..|t|] == t && s[|t|..] == rest;
  }

  lemma BareRun(t: string, rest: string)
    requires IsBareSafe(t) && EndsField(rest)
    ensures BareLength(t + rest) == |t|
    ensures t == [] || (t + rest)[0] != '"'
  {
    var s := t + rest;
    assert forall i :: 0 <= i < |t| ==> s[i] == t[i];
    assert |t| < |s| ==> s[|t|] == rest[0];
  }

  /** Join peels off its first part. */
  lemma JoinCons(parts: seq<string>, sep: string)
    requires |parts| >= 2
    ensures Join(parts, sep) == parts[0] + sep + Join(parts[1..], sep)
  {
  }

  /** A written record reads back as its cells' texts, ending at the end of the text or at a line break. */
  lemma {:induction false} ReadRecordRender(cells: seq<Cell>, tail: string)
    requires |cells| >= 1 && RecordSafe(cells)
    requires tail == [] || tail[0] == '\n'
    ensures ReadRecord(RenderRecord(cells) + tail)
            == Some((Texts(cells), if tail == [] then [] else tail[1..]))
  {
    if |cells| == 1 {
      assert cells == [cells[0]];
      ReadRecordSingle(cells[0], tail);
    } else {
      assert RecordSafe(cells[1..]);
      ReadRecordRender(cells[1..], tail);
      ReadRecordCons(cells, tail, if tail == [] then [] else tail[1..]);
    }
  }

  lemma ReadRecordSingle(c: Cell, tail: string)
    requires CellSafe(c) && (tail == [] || tail[0] == '\n')
    ensures ReadRecord(RenderRecord([c]) + tail)
            == Some((Texts([c]), if tail == [] then [] else tail[1..]))
  {
    assert Renders([c]) == [Render(c)];
    ReadFieldRender(c, tail);
    assert Texts([c]) == [c.text];
  }

  /** A record of two or more cells: its first cell, ",", and the record of the others. */
  lemma RenderRecordCons(cells: seq<Cell>)
    requires |cells| >= 2
    ensures RenderRecord(cells) == Render(cells[0]) + "," + RenderRecord(cells[1..])
  {
    assert Renders(cells)[1..] == Renders(cells[1..]);
    JoinCons(Renders(cells), ",");
  }

  lemma ReadRecordCons(cells: seq<Cell>, tail: string, next: string)
    requires |cells| >= 2 && CellSafe(cells[0])
    requires ReadRecord(RenderRecord(cells[1..]) + tail) == Some((Texts(cells[1..]), next))
    ensures ReadRecord(RenderRecord(cells) + tail) == Some((Texts(cells), next))
  {
    var c, more := cells[0], cells[1..];
    var s, after := RenderRecord(cells) + tail, "," + (RenderRecord(more) + tail);
    assert ReadField(s) == Some((c.text, after)) by {
      RecordFirstField(cells, tail);
    }
    assert ReadRecord(after[1..]) == Some((Texts(more), next)) by {
      assert after[1..] == RenderRecord(more) + tail;
    }
    ReadRecordComma(s, c.text, after, Texts(more), next);
    TextsCons(cells);
  }

  lemma TextsCons(cells: seq<Cell>)
    requires cells != []
    ensures Texts(cells) == [cells[0].text] + Texts(cells[1..])
  {
    assert Texts(cells)[1..] == Texts(cells[1..]);
  }

  lemma RecordFirstField(cells: seq<Cell>, tail: string)
    requires |cells| >= 2 && CellSafe(cells[0])
    ensures ReadField(RenderRecord(cells) + tail)
            == Some((cells[0].text, "," + (RenderRecord(cells[1..]) + tail)))
  {
    var first, others := Render(cells[0]), RenderRecord(cells[1..]);
    var after := "," + (others + tail);
    RenderRecordCons(cells);
    ConcatAssoc(first, others, tail);
    ReadFieldRender(cells[0], after);
  }

  lemma ConcatAssoc(a: string, b: string, c: string)
    ensures (a + "," + b) + c == a + ("," + (b + c))
  {
  }

  /** A record whose first field is followed by ",": that field, then the record after the ",". */
  lemma ReadRecordComma(s: string, f: string, after: string, fs: seq<string>, tail: string)
    requires ReadField(s) == Some((f, after)) && after != [] && after[0] == ','
    requires ReadRecord(after[1..]) == Some((fs, tail))
    ensures ReadRecord(s) == Some(([f] + fs, tail))
  {
  }

  /** Records of two or more cells each, joined by line breaks, read back as their texts. */
  lemma {:induction false} ReadDocumentRender(records: seq<seq<Cell>>)
    requires forall i :: 0 <= i < |records| ==> |records[i]| >= 2 && RecordSafe(records[i])
    ensures ReadDocument(Join(RenderRecords(records), "\n")) == Some(AllTexts(records))
  {
    if records == [] {
      assert AllTexts(records) == [];
    } else {
      var more := records[1..];
      ReadDocumentRender(more);
      ReadDocumentStep(records[0], more);
      assert records == [records[0]] + more;
    }
  }

  lemma ReadDocumentStep(r: seq<Cell>, more: seq<seq<Cell>>)
    requires |r| >= 2 && RecordSafe(r)
    requires ReadDocument(Join(RenderRecords(more), "\n")) == Some(AllTexts(more))
    ensures ReadDocument(Join(RenderRecords([r] + more), "\n")) == Some(AllTexts([r] + more))
  {
    var rest: string := if more == [] then [] else "\n" + Join(RenderRecords(more), "\n");
    RenderRecordsCons(r, more);
    ReadRecordRender(r, rest);
    RenderRecordNonEmpty(r);
    var after := if rest == [] then [] else rest[1..];
    assert after == Join(RenderRecords(more), "\n") by {
      if more == [] { assert RenderRecords(more) == []; }
    }
    assert ReadRecord(RenderRecord(r) + rest) == Some((Texts(r), after));
    assert AllTexts([r] + more) == [Texts(r)] + AllTexts(more);
  }

  lemma RenderRecordsCons(r: seq<Cell>, more: seq<seq<Cell>>)
    ensures Join(RenderRecords([r] + more), "\n")
            == RenderRecord(r) + (if more == [] then [] else "\n" + Join(RenderRecords(more), "\n"))
  {
    assert RenderRecords([r] + more)[1..] == RenderRecords(more);
    JoinFirst(RenderRecords([r] + more), RenderRecords(more), "\n");
  }

  /** Join of a first part and the others: the first part alone, or followed by sep and the others' join. */
  lemma JoinFirst(parts: seq<string>, others: seq<string>, sep: string)
    requires |parts| >= 1 && parts[1..] == others
    ensures Join(parts, sep) == parts[0] + (if others == [] then [] else sep + Join(others, sep))
  {
    if others != [] {
      JoinCons(parts, sep);
    }
  }

  lemma RenderRecordNonEmpty(cells: seq<Cell>)
    requires |cells| >= 2
    ensures |RenderRecord(cells)| > 0
  {
    JoinCons(Renders(cells), ",");
  }

  /**
   * A header line, a line break, then records joined by line breaks (the
   * header is kept even with no records, and the line break after it then
   * ends the file).
   */
  lemma ReadHeaderAndRecords(header: seq<Cell>, records: seq<seq<Cell>>)
    requires |header| >= 2 && RecordSafe(header)
    requires forall i :: 0 <= i < |records| ==> |records[i]| >= 2 && RecordSafe(records[i])
    ensures ReadDocument(RenderRecord(header) + "\n" + Join(RenderRecords(records), "\n"))
            == Some([Texts(header)] + AllTexts(records))
  {
    var rest := "\n" + Join(RenderRecords(records), "\n");
    assert RenderRecord(header) + "\n" + Join(RenderRecords(records), "\n") == RenderRecord(header) + rest;
    ReadRecordRender(header, rest);
    RenderRecordNonEmpty(header);
    ReadDocumentRender(records);
    assert rest[1..] == Join(RenderRecords(records), "\n");
  }

  /** Joining a part that holds the separator gives the same text as joining its two halves. */
  lemma {:induction false} JoinSplitPart(a: seq<string>, p: string, q: string, b: seq<string>, sep: string)
    ensures Join(a + [p + sep + q] + b, sep) == Join(a + [p, q] + b, sep)
  {
    var merged, split := a + [p + sep + q] + b, a + [p, q] + b;
    if a == [] {
      assert merged == [p + sep + q] + b && split == [p, q] + b;
      assert split[1..] == [q] + b;
      if b == [] {
        assert Join(split[1..], sep) == q;
      } else {
        assert merged[1..] == b && split[1..][1..] == b;
        JoinCons(split[1..], sep);
      }
    } else {
      JoinSplitPart(a[1..], p, q, b, sep);
      assert merged[1..] == a[1..] + [p + sep + q] + b;
      assert split[1..] == a[1..] + [p, q] + b;
      JoinCons(merged, sep);
      JoinCons(split, sep);
    }
  }

  /** An unquoted cell holding a "," is written exactly like two cells split at it. */
  lemma BareCommaSplits(before: seq<Cell>, x: string, y: string, after: seq<Cell>)
    ensures RenderRecord(before + [Bare(x + "," + y)] + after)
            == RenderRecord(before + [Bare(x), Bare(y)] + after)
  {
    assert Renders(before + [Bare(x + "," + y)] + after)
           == Renders(before) + [x + "," + y] + Renders(after);
    assert Renders(before + [Bare(x), Bare(y)] + after)
           == Renders(before) + [x, y] + Renders(after);
    JoinSplitPart(Renders(before), x, y, Renders(after), ",");
  }

  /** Joining two non-empty lists of parts: the first join, ",", the second join. */
  lemma {:induction false} JoinAppend(xs: seq<string>, ys: seq<string>)
    requires xs != [] && ys != []
    ensures Join(xs + ys, ",") == Join(xs, ",") + "," + Join(ys, ",")
  {
    if |xs| == 1 {
      assert (xs + ys)[0] == xs[0] && (xs + ys)[1..] == ys;
    } else {
      assert (xs + ys)[1..] == xs[1..] + ys;
      JoinAppend(xs[1..], ys);
      ConcatAssoc(xs[0], Join(xs[1..], ","), "," + Join(ys, ","));
    }
  }

  // ------------------------------------------------- unquoted cells with commas

  /** Text a reader takes as one or more whole unquoted fields: no quote and no line break, commas allowed. */
  predicate IsQuoteFree(s: string)
  {
    forall i :: 0 <= i < |s| ==> s[i] != '"' && s[i] != '\n'
  }

  /** Every unquoted cell of the record holds neither a quote nor a line break. */
  predicate RecordQuoteFree(cells: seq<Cell>)
  {
    forall i :: 0 <= i < |cells| ==> cells[i].Quoted? || IsQuoteFree(cells[i].text)
  }

  /** An unquoted text cut at each of its commas. */
  function SplitCommas(t: string): (r: seq<string>)
    ensures |r| >= 1
  {
    if t == [] then [[]]
    else
      var rest := SplitCommas(t[1..]);
      if t[0] == ',' then [[]] + rest else [[t[0]] + rest[0]] + rest[1..]
  }

  /** The pieces joined by "," give the text back, and none of them holds a comma, a quote or a line break. */
  lemma {:induction false} SplitCommasSpec(t: string)
    requires IsQuoteFree(t)
    ensures Join(SplitCommas(t), ",") == t
    ensures forall i :: 0 <= i < |SplitCommas(t)| ==> IsBareSafe(SplitCommas(t)[i])
  {
    if t != [] {
      var rest := SplitCommas(t[1..]);
      SplitCommasSpec(t[1..]);
      assert [t[0]] + t[1..] == t;
      if t[0] == ',' {
        JoinCons([[]] + rest, ",");
        assert ([[]] + rest)[1..] == rest;
      } else {
        var r := SplitCommas(t);
        assert r == [[t[0]] + rest[0]] + rest[1..];
        if |rest| == 1 {
          assert r == [[t[0]] + rest[0]];
        } else {
          JoinCons(rest, ",");
          JoinCons(r, ",");
          assert r[1..] == rest[1..];
        }
        assert IsBareSafe(r[0]) by {
          assert forall j :: 1 <= j < |r[0]| ==> r[0][j] == rest[0][j - 1];
        }
        assert forall i :: 1 <= i < |r| ==> r[i] == rest[i];
      }
    }
  }

  /** A cell as a reader splits it: a quoted cell whole, an unquoted one at its commas. */
  function SplitCell(c: Cell): (r: seq<Cell>)
    ensures |r| >= 1
  {
    if c.Quoted? then [c] else BareCells(SplitCommas(c.text))
  }

  function SplitRecord(cells: seq<Cell>): (r: seq<Cell>)
    ensures |r| >= |cells|
  {
    if cells == [] then [] else SplitCell(cells[0]) + SplitRecord(cells[1..])
  }

  function SplitRecords(records: seq<seq<Cell>>): (r: seq<seq<Cell>>)
    ensures |r| == |records|
    ensures forall i :: 0 <= i < |records| ==> r[i] == SplitRecord(records[i])
  {
    seq(|records|, i requires 0 <= i < |records| => SplitRecord(records[i]))
  }

  /** A split cell is written exactly like the cell, and every piece is safe to write bare. */
  lemma SplitCellRender(c: Cell)
    requires c.Quoted? || IsQuoteFree(c.text)
    ensures RenderRecord(SplitCell(c)) == Render(c)
    ensures RecordSafe(SplitCell(c))
  {
    if c.Quoted? {
      assert Renders([c]) == [Render(c)];
    } else {
      SplitCommasSpec(c.text);
      RenderBareCells(SplitCommas(c.text));
    }
  }

  lemma RendersAppend(a: seq<Cell>, b: seq<Cell>)
    ensures Renders(a + b) == Renders(a) + Renders(b)
  {
  }

  /** Cutting the unquoted cells at their commas leaves the written line unchanged and makes every cell safe. */
  lemma {:induction false} SplitRecordRender(cells: seq<Cell>)
    requires cells != [] && RecordQuoteFree(cells)
    ensures RenderRecord(SplitRecord(cells)) == RenderRecord(cells)
    ensures RecordSafe(SplitRecord(cells))
  {
    var head, more := SplitCell(cells[0]), cells[1..];
    SplitCellRender(cells[0]);
    if more == [] {
      assert SplitRecord(cells) == head by {
        assert SplitRecord(more) == [];
      }
      assert RenderRecord(cells) == Render(cells[0]) by {
        assert Renders(cells) == [Render(cells[0])];
      }
    } else {
      assert RecordQuoteFree(more);
      SplitRecordRender(more);
      SplitRecordCons(head, SplitRecord(more), cells);
    }
  }

  /** The step of SplitRecordRender: a split first cell, then the split others. */
  lemma SplitRecordCons(head: seq<Cell>, tail: seq<Cell>, cells: seq<Cell>)
    requires |cells| >= 2 && head == SplitCell(cells[0]) && tail == SplitRecord(cells[1..])
    requires RenderRecord(head) == Render(cells[0]) && RecordSafe(head)
    requires RenderRecord(tail) == RenderRecord(cells[1..]) && RecordSafe(tail)
    ensures RenderRecord(SplitRecord(cells)) == RenderRecord(cells)
    ensures RecordSafe(SplitRecord(cells))
  {
    assert SplitRecord(cells) == head + tail;
    assert RenderRecord(head + tail) == RenderRecord(head) + "," + RenderRecord(tail) by {
      RendersAppend(head, tail);
      JoinAppend(Renders(head), Renders(tail));
    }
    RenderRecordCons(cells);
    assert RecordSafe(head + tail) by {
      forall i | 0 <= i < |head + tail| ensures CellSafe((head + tail)[i]) {
        if i >= |head| {
          assert (head + tail)[i] == tail[i - |head|];
        }
      }
    }
  }

  /** Every record of two or more cells keeps its written line and its size, and becomes safe. */
  lemma SplitRecordsRender(records: seq<seq<Cell>>)
    requires forall i :: 0 <= i < |records| ==> |records[i]| >= 2 && RecordQuoteFree(records[i])
    ensures RenderRecords(SplitRecords(records)) == RenderRecords(records)
    ensures forall i :: 0 <= i < |records| ==>
      |SplitRecords(records)[i]| >= 2 && RecordSafe(SplitRecords(records)[i])
  {
    forall i | 0 <= i < |records|
      ensures RenderRecord(SplitRecord(records[i])) == RenderRecord(records[i])
      ensures RecordSafe(SplitRecord(records[i]))
    {
      SplitRecordRender(records[i]);
    }
  }

  /**
   * Records whose unquoted cells hold no quote and no line break, joined by
   * line breaks, read back one record per line: each line's fields are its
   * cells' texts with the unquoted ones cut at their commas.
   */
  lemma ReadQuoteFreeDocument(records: seq<seq<Cell>>)
    requires forall i :: 0 <= i < |records| ==> |records[i]| >= 2 && RecordQuoteFree(records[i])
    ensures ReadDocument(Join(RenderRecords(records), "\n")) == Some(AllTexts(SplitRecords(records)))
  {
    SplitRecordsRender(records);
    ReadDocumentRender(SplitRecords(records));
  }

  /** The same with a header line in front, followed by a line break even when no record follows. */
  lemma ReadHeaderAndQuoteFreeRecords(header: seq<Cell>, records: seq<seq<Cell>>)
    requires |header| >= 2 && RecordSafe(header)
    requires forall i :: 0 <= i < |records| ==> |records[i]| >= 2 && RecordQuoteFree(records[i])
    ensures ReadDocument(RenderRecord(header) + "\n" + Join(RenderRecords(records), "\n"))
            == Some([Texts(header)] + AllTexts(SplitRecords(records)))
  {
    SplitRecordsRender(records);
    ReadHeaderAndRecords(header, SplitRecords(records));
  }
}
