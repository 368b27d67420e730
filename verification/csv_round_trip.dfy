/**
 * What the supplier exporter writes, the importer's parser reads back: first at the level
 * of raw rows for arbitrary field texts, then for the header and record objects of an
 * export under the conditions that trimming and the unescaped header impose.
 */
module CsvRoundTrip {
  import opened Wrappers
  import opened JsStrings
  import opened CsvExport
  import opened CsvParse

  /** `csvEscape` applied to every value of a row. */
  function EscapeAll(vals: seq<string>): (r: seq<string>)
    ensures |r| == |vals| && forall i :: 0 <= i < |vals| ==> r[i] == EscapeText(vals[i])
  {
    if |vals| == 0 then [] else [EscapeText(vals[0])] + EscapeAll(vals[1..])
  }

  /** One row of field texts, escaped and joined by commas. */
  function EncodeLine(vals: seq<string>): string {
    Join(",", EscapeAll(vals))
  }

  function EncodeLines(cells: seq<seq<string>>): (r: seq<string>)
    ensures |r| == |cells| && forall i :: 0 <= i < |cells| ==> r[i] == EncodeLine(cells[i])
  {
    if |cells| == 0 then [] else [EncodeLine(cells[0])] + EncodeLines(cells[1..])
  }

  /** Rows of field texts written the exporter's way: lines joined by CRLF. */
  function EncodeRows(cells: seq<seq<string>>): string {
    Join("\r\n", EncodeLines(cells))
  }

  predicate NoQuoteAhead(rest: string) {
    |rest| == 0 || rest[0] != '"'
  }

  /** A field without special characters is read character by character into the field. */
  lemma {:induction false} ScanPlain(v: string, rest: string, b: Buffers)
    requires !HasSpecial(v)
    ensures Scan(v + rest, ScanState(b, false)) == Scan(rest, ScanState(Append(b, v), false))
    decreases |v|
  {
    if |v| == 0 {
      assert v + rest == rest;
      assert b.field + v == b.field;
    } else {
      assert !IsSpecial(v[0]);
      assert (v + rest)[0] == v[0];
      assert (v + rest)[1..] == v[1..] + rest;
      assert b.field + [v[0]] + v[1..] == b.field + v;
      ScanPlain(v[1..], rest, Append(b, [v[0]]));
    }
  }

  /** Inside quotes, the doubled-quote text of `v` and the closing quote read back as `v`,
      provided no quote follows the closing one. */
  lemma {:induction false} ScanQuoted(v: string, rest: string, b: Buffers)
    requires NoQuoteAhead(rest)
    ensures Scan(DoubleQuotes(v) + "\"" + rest, ScanState(b, true))
            == Scan(rest, ScanState(Append(b, v), false))
    decreases |v|
  {
    var text := DoubleQuotes(v) + "\"" + rest;
    if |v| == 0 {
      assert text == "\"" + rest;
      assert text[1..] == rest;
      assert b.field + v == b.field;
    } else {
      var tail := DoubleQuotes(v[1..]) + "\"" + rest;
      assert b.field + [v[0]] + v[1..] == b.field + v;
      if v[0] == '"' {
        assert text == "\"\"" + tail;
        assert text[2..] == tail;
        ScanQuoted(v[1..], rest, Append(b, "\""));
      } else {
        assert text == [v[0]] + tail;
        assert text[1..] == tail;
        ScanQuoted(v[1..], rest, Append(b, [v[0]]));
      }
    }
  }

  /** An opening quote that is never closed runs to the end of the input: a tail that
      keeps the quote open is one whose quotes all come in doubled pairs, that is
      `DoubleQuotes(v)` for some `v`. Each pair lands as one `"`, everything else,
      separators and line breaks included, lands in the current field as it is, and no
      error is raised. */
  lemma {:induction false} UnterminatedQuoteRunsToEnd(v: string, st: ScanState)
    requires st.inQuotes
    ensures Scan(DoubleQuotes(v), st) == ScanState(Append(st.buf, v), true)
    decreases |v|
  {
    var text := DoubleQuotes(v);
    if |v| == 0 {
      assert text == [];
      assert st.buf.field + v == st.buf.field;
    } else {
      var tail := DoubleQuotes(v[1..]);
      assert st.buf.field + [v[0]] + v[1..] == st.buf.field + v;
      if v[0] == '"' {
        assert text == "\"\"" + tail;
        assert text[2..] == tail;
        UnterminatedQuoteRunsToEnd(v[1..], ScanState(Append(st.buf, "\""), true));
      } else {
        assert text == [v[0]] + tail;
        assert text[1..] == tail;
        UnterminatedQuoteRunsToEnd(v[1..], ScanState(Append(st.buf, [v[0]]), true));
      }
    }
  }

  /** Every escaped field reads back as the text it escaped. */
  lemma ScanEscaped(v: string, rest: string, b: Buffers)
    requires NoQuoteAhead(rest)
    ensures Scan(EscapeText(v) + rest, ScanState(b, false)) == Scan(rest, ScanState(Append(b, v), false))
  {
    var e := DoubleQuotes(v);
    EscapedHasSpecial(v);
    if HasSpecial(e) {
      var text := "\"" + e + "\"" + rest;
      assert text[0] == '"';
      assert text[1..] == e + "\"" + rest;
      ScanQuoted(v, rest, b);
    } else {
      NoSpecialUnchanged(v);
      ScanPlain(v, rest, b);
    }
  }

  /** A quote in the middle of a field opens quoting just as one at its start does: the
      quotes disappear, and what they enclose, separators and line breaks included, joins
      the field text. */
  lemma MidFieldQuoteOpens(p: string, q: string, rest: string, b: Buffers)
    requires !HasSpecial(p) && '"' !in q && NoQuoteAhead(rest)
    ensures Scan(p + "\"" + q + "\"" + rest, ScanState(b, false))
            == Scan(rest, ScanState(Append(b, p + q), false))
  {
    var tail := "\"" + q + "\"" + rest;
    var bp := Append(b, p);
    calc {
      Scan(p + "\"" + q + "\"" + rest, ScanState(b, false));
      { assert p + "\"" + q + "\"" + rest == p + tail; }
      Scan(p + tail, ScanState(b, false));
      { ScanPlain(p, tail, b); }
      Scan(tail, ScanState(bp, false));
      { assert tail[0] == '"'; }
      Scan(tail[1..], ScanState(bp, true));
      { NoQuotesUnchanged(q); assert tail[1..] == DoubleQuotes(q) + "\"" + rest; ScanQuoted(q, rest, bp); }
      Scan(rest, ScanState(Append(bp, q), false));
      { assert b.field + p + q == b.field + (p + q); }
      Scan(rest, ScanState(Append(b, p + q), false));
    }
  }

  /** A whole line reads back as its fields: all but the last pushed onto the row, the last
      left in the field buffer. */
  lemma {:induction false} ScanLine(vals: seq<string>, rest: string, b: Buffers)
    requires |vals| > 0 && b.field == [] && NoQuoteAhead(rest)
    ensures Scan(EncodeLine(vals) + rest, ScanState(b, false))
            == Scan(rest, ScanState(Buffers(b.rows, b.cur + vals[..|vals| - 1], vals[|vals| - 1]), false))
    decreases |vals|
  {
    if |vals| == 1 {
      assert EncodeLine(vals) == EscapeText(vals[0]);
      ScanEscaped(vals[0], rest, b);
      assert b.cur + vals[..0] == b.cur;
      assert b.field + vals[0] == vals[0];
    } else {
      var more := EncodeLine(vals[1..]) + rest;
      EncodeLineCons(vals, rest);
      var b2 := Buffers(b.rows, b.cur + [vals[0]], []);
      var tail := vals[1..];
      assert tail[..|tail| - 1] == vals[1..][..|vals| - 2];
      assert tail[|tail| - 1] == vals[|vals| - 1];
      ScanLine(tail, rest, b2);
      calc {
        Scan(EncodeLine(vals) + rest, ScanState(b, false));
        { ScanEscaped(vals[0], "," + more, b); }
        Scan("," + more, ScanState(Append(b, vals[0]), false));
        { ScanComma(more, Append(b, vals[0])); assert b.field + vals[0] == vals[0]; }
        Scan(more, ScanState(b2, false));
        Scan(rest, ScanState(Buffers(b.rows, b2.cur + vals[1..][..|vals| - 2], vals[|vals| - 1]), false));
        { ConsThenTake(b.cur, vals); }
        Scan(rest, ScanState(Buffers(b.rows, b.cur + vals[..|vals| - 1], vals[|vals| - 1]), false));
      }
    }
  }

  /** `ScanLine` from an empty row. */
  lemma ScanFreshLine(vals: seq<string>, rest: string, rows: seq<seq<string>>)
    requires |vals| > 0 && NoQuoteAhead(rest)
    ensures Scan(EncodeLine(vals) + rest, ScanState(Buffers(rows, [], []), false))
            == Scan(rest, ScanState(Buffers(rows, vals[..|vals| - 1], vals[|vals| - 1]), false))
  {
    ScanLine(vals, rest, Buffers(rows, [], []));
    assert [] + vals[..|vals| - 1] == vals[..|vals| - 1];
  }

  lemma ConsThenTake<T>(a: seq<T>, v: seq<T>)
    requires |v| > 1
    ensures a + [v[0]] + v[1..][..|v| - 2] == a + v[..|v| - 1]
  {
    assert [v[0]] + v[1..][..|v| - 2] == v[..|v| - 1];
  }

  lemma EncodeLineCons(vals: seq<string>, rest: string)
    requires |vals| > 1
    ensures EncodeLine(vals) + rest == EscapeText(vals[0]) + ("," + (EncodeLine(vals[1..]) + rest))
  {
    var es := EscapeAll(vals);
    assert EscapeAll(vals[1..]) == es[1..];
  }

  /** A comma outside quotes ends the field. */
  lemma ScanComma(more: string, b: Buffers)
    ensures Scan("," + more, ScanState(b, false))
            == Scan(more, ScanState(Buffers(b.rows, b.cur + [b.field], []), false))
  {
    assert ("," + more)[1..] == more;
  }

  /** One character outside quotes that is neither a quote nor a comma: a carriage return
      is dropped, a line feed ends the field and the row. */
  lemma ScanBreak(t: string, b: Buffers)
    requires |t| > 0 && (t[0] == '\r' || t[0] == '\n')
    ensures Scan(t, ScanState(b, false))
            == Scan(t[1..], ScanState(if t[0] == '\r' then b else PushRow(PushField(b)), false))
  {
  }

  /** CRLF outside quotes ends the field and the row. */
  lemma ScanCrlf(more: string, b: Buffers)
    ensures Scan("\r\n" + more, ScanState(b, false))
            == Scan(more, ScanState(Buffers(b.rows + [b.cur + [b.field]], [], []), false))
  {
    var t := "\r\n" + more;
    var u := t[1..];
    assert t[0] == '\r' && u[0] == '\n' && u[1..] == more;
    ScanBreak(t, b);
    ScanBreak(u, b);
  }

  /** A sequence of lines joined by CRLF reads back as finished rows, all but the last; the
      last is left in the buffers for the end-of-input flush. */
  lemma {:induction false} ScanLines(cells: seq<seq<string>>, b: Buffers)
    requires |cells| > 0 && forall i :: 0 <= i < |cells| ==> |cells[i]| > 0
    requires b.cur == [] && b.field == []
    ensures var last := cells[|cells| - 1];
            Scan(EncodeRows(cells), ScanState(b, false))
            == ScanState(Buffers(b.rows + cells[..|cells| - 1], last[..|last| - 1], last[|last| - 1]), false)
    decreases |cells|
  {
    var last := cells[|cells| - 1];
    if |cells| == 1 {
      ScanOnlyRow(cells, b);
    } else {
      var b2 := Buffers(b.rows + [cells[0]], [], []);
      var tail := cells[1..];
      calc {
        Scan(EncodeRows(cells), ScanState(b, false));
        { ScanFirstRow(cells, b); }
        Scan(EncodeRows(tail), ScanState(b2, false));
        { ScanLines(tail, b2); assert tail[|tail| - 1] == last; }
        ScanState(Buffers(b2.rows + tail[..|tail| - 1], last[..|last| - 1], last[|last| - 1]), false);
        { ConsThenTake(b.rows, cells); }
        ScanState(Buffers(b.rows + cells[..|cells| - 1], last[..|last| - 1], last[|last| - 1]), false);
      }
    }
  }

  /** A single line is left entirely in the buffers for the end-of-input flush. */
  lemma ScanOnlyRow(cells: seq<seq<string>>, b: Buffers)
    requires |cells| == 1 && |cells[0]| > 0
    requires b.cur == [] && b.field == []
    ensures var last := cells[0];
            Scan(EncodeRows(cells), ScanState(b, false))
            == ScanState(Buffers(b.rows + cells[..0], last[..|last| - 1], last[|last| - 1]), false)
  {
    assert EncodeRows(cells) == EncodeLine(cells[0]) + [];
    ScanLine(cells[0], [], b);
    assert b.rows + cells[..0] == b.rows;
  }

  /** The first line of several, and the CRLF after it, make one finished row. */
  lemma ScanFirstRow(cells: seq<seq<string>>, b: Buffers)
    requires |cells| > 1 && |cells[0]| > 0
    requires b.cur == [] && b.field == []
    ensures Scan(EncodeRows(cells), ScanState(b, false))
            == Scan(EncodeRows(cells[1..]), ScanState(Buffers(b.rows + [cells[0]], [], []), false))
  {
    var more := EncodeRows(cells[1..]);
    var c := cells[0];
    var b1 := Buffers(b.rows, c[..|c| - 1], c[|c| - 1]);
    calc {
      Scan(EncodeRows(cells), ScanState(b, false));
      { EncodeRowsCons(cells); }
      Scan(EncodeLine(c) + ("\r\n" + more), ScanState(Buffers(b.rows, [], []), false));
      { ScanFreshLine(c, "\r\n" + more, b.rows); }
      Scan("\r\n" + more, ScanState(b1, false));
      { ScanCrlf(more, b1); }
      Scan(more, ScanState(Buffers(b.rows + [b1.cur + [b1.field]], [], []), false));
      { assert b1.cur + [b1.field] == c; }
      Scan(more, ScanState(Buffers(b.rows + [c], [], []), false));
    }
  }

  lemma EncodeRowsCons(cells: seq<seq<string>>)
    requires |cells| > 1
    ensures EncodeRows(cells) == EncodeLine(cells[0]) + ("\r\n" + EncodeRows(cells[1..]))
  {
    assert EncodeLines(cells[1..]) == EncodeLines(cells)[1..];
  }

  /** Raw-row round trip: for any rows of any texts (quotes, commas, CR and LF included),
      the parser's raw rows are the rows the exporter's encoding started from, as long as
      no row is empty and the last row is not a single empty field. */
  lemma ParseRowsInvertsEncodeRows(cells: seq<seq<string>>)
    requires |cells| > 0 && forall i :: 0 <= i < |cells| ==> |cells[i]| > 0
    requires KeepLastRow(cells[|cells| - 1])
    ensures ParseRows(EncodeRows(cells)) == cells
  {
    var last := cells[|cells| - 1];
    var rest := Buffers(cells[..|cells| - 1], last[..|last| - 1], last[|last| - 1]);
    calc {
      ParseRows(EncodeRows(cells));
      Finish(Scan(EncodeRows(cells), Start).buf);
      { ScanLines(cells, Empty); assert [] + cells[..|cells| - 1] == cells[..|cells| - 1]; }
      Finish(rest);
      { assert rest.cur + [rest.field] == last; }
      cells[..|cells| - 1] + [last];
      cells;
    }
  }

  // ---------------------------------------------------------------------------------
  // From raw rows to the exporter's records.

  /** A header name the exporter can write without escaping and the parser gives back
      unchanged after trimming. */
  predicate PlainName(h: string) {
    Trimmed(h) && !HasSpecial(h)
  }

  predicate Distinct(names: seq<string>) {
    forall i, j :: 0 <= i < j < |names| ==> names[i] != names[j]
  }

  /** The texts a record contributes to the export, in header order. */
  function RecordValues(header: seq<string>, o: Record): (vals: seq<string>)
    ensures |vals| == |header| && forall j :: 0 <= j < |header| ==> vals[j] == Cell(o, header[j])
  {
    seq(|header|, j requires 0 <= j < |header| => Cell(o, header[j]))
  }

  /** The record as the importer should see it: each header name mapped to its text. */
  function Project(header: seq<string>, o: Record): map<string, string> {
    map h | h in header :: Cell(o, h)
  }

  /** The raw rows an export is meant to carry: the header, its first name behind the
      byte-order mark, then each record's texts. */
  function ExportTable(header: seq<string>, records: seq<Record>): (t: seq<seq<string>>)
    requires |header| > 0
    ensures |t| == |records| + 1
    ensures t[0] == header[0 := [Bom] + header[0]]
    ensures forall i :: 0 <= i < |records| ==> t[i + 1] == RecordValues(header, records[i])
  {
    [header[0 := [Bom] + header[0]]]
      + seq(|records|, i requires 0 <= i < |records| => RecordValues(header, records[i]))
  }

  /** A character put in front of a joined list lands in front of its first part. */
  lemma JoinPrefix(c: string, sep: string, parts: seq<string>)
    requires |parts| > 0
    ensures c + Join(sep, parts) == Join(sep, parts[0 := c + parts[0]])
  {
    if |parts| > 1 {
      assert parts[0 := c + parts[0]][1..] == parts[1..];
    }
  }

  lemma EscapeAllPlain(names: seq<string>)
    requires forall j :: 0 <= j < |names| ==> !HasSpecial(names[j])
    ensures EscapeAll(names) == names
  {
    forall j | 0 <= j < |names|
      ensures EscapeText(names[j]) == names[j]
    {
      EscapedHasSpecial(names[j]);
      NoSpecialUnchanged(names[j]);
    }
  }

  lemma EscapeAllRecord(header: seq<string>, o: Record)
    ensures EncodeLine(RecordValues(header, o)) == RecordLine(header, o)
  {
    var vals := RecordValues(header, o);
    forall j | 0 <= j < |header|
      ensures EscapeText(vals[j]) == CsvEscape(Lookup(o, header[j]))
    {
      assert EscapeText([]) == [];
    }
    assert EscapeAll(vals) == seq(|header|, j requires 0 <= j < |header| => CsvEscape(Lookup(o, header[j])));
  }

  /** A record's line, read on its own, gives back one row holding the record's texts in
      header order (`""` where the value is missing), whatever quotes, commas or line
      breaks they contain, unless that row would be a single empty field. */
  lemma RecordLineReadsBack(header: seq<string>, o: Record)
    requires |header| > 0 && KeepLastRow(RecordValues(header, o))
    ensures ParseRows(RecordLine(header, o)) == [RecordValues(header, o)]
  {
    var vals := RecordValues(header, o);
    EscapeAllRecord(header, o);
    ParseRowsInvertsEncodeRows([vals]);
    assert EncodeLines([vals]) == [EncodeLine(vals)];
  }

  /** The exported text is the CRLF encoding of `ExportTable`. */
  lemma ExportIsEncodeRows(header: seq<string>, records: seq<Record>)
    requires |header| > 0 && |records| > 0
    requires forall j :: 0 <= j < |header| ==> !HasSpecial(header[j])
    ensures Export(header, records) == Some(EncodeRows(ExportTable(header, records)))
  {
    var lines := Lines(header, records);
    var table := ExportTable(header, records);
    var first := header[0 := [Bom] + header[0]];
    assert !HasSpecial([Bom] + header[0]) by {
      EscapedHasSpecial(header[0]);
      assert forall k :: 1 <= k < |[Bom] + header[0]| ==> ([Bom] + header[0])[k] == header[0][k - 1];
    }
    EscapeAllPlain(first);
    JoinPrefix([Bom], ",", header);
    JoinPrefix([Bom], "\r\n", lines);
    forall i | 1 <= i < |table|
      ensures EncodeLine(table[i]) == lines[i]
    {
      EscapeAllRecord(header, records[i - 1]);
    }
    assert EncodeLines(table) == lines[0 := [Bom] + lines[0]];
  }

  /** The data object of a record's row, under distinct header names and trimmed texts, is
      the record projected onto the header. */
  lemma RowObjectOfRecord(header: seq<string>, o: Record)
    requires Distinct(header)
    requires forall j :: 0 <= j < |header| ==> Trimmed(Cell(o, header[j]))
    ensures RowObject(header, RecordValues(header, o)) == Project(header, o)
  {
    RowObjectOfTrimmed(header, RecordValues(header, o));
    AssignRecord(header, o);
  }

  /** Under distinct names, assigning a record's texts rebuilds the record's projection. */
  lemma AssignRecord(header: seq<string>, o: Record)
    requires Distinct(header)
    ensures Assign(header, RecordValues(header, o), |header|) == Project(header, o)
  {
    var vals := RecordValues(header, o);
    var obj := Assign(header, vals, |header|);
    var proj := Project(header, o);
    assert obj.Keys == proj.Keys by {
      NamesOfHeader(header);
    }
    forall h | h in proj
      ensures obj[h] == proj[h]
    {
      var j :| 0 <= j < |header| && header[j] == h;
      DistinctIsLast(header, j);
    }
    MapsAgree(obj, proj);
  }

  lemma DistinctIsLast(header: seq<string>, j: nat)
    requires Distinct(header) && j < |header|
    ensures LastOccurrence(header, |header|, j)
  {
  }

  lemma MapsAgree<K, V>(a: map<K, V>, b: map<K, V>)
    requires a.Keys == b.Keys && forall k :: k in a ==> a[k] == b[k]
    ensures a == b
  {
  }

  lemma NamesOfHeader(header: seq<string>)
    ensures (set j | 0 <= j < |header| :: header[j]) == set h | h in header
  {
    forall h | h in header
      ensures h in (set j | 0 <= j < |header| :: header[j])
    {
      var j :| 0 <= j < |header| && header[j] == h;
    }
  }

  /** The header line an export writes reads back as the header: the byte-order mark
      goes, and trimming leaves trimmed names alone. */
  lemma HeaderOfExportedHeader(header: seq<string>)
    requires |header| > 0 && forall j :: 0 <= j < |header| ==> Trimmed(header[j])
    ensures HeaderOf(header[0 := [Bom] + header[0]]) == header
  {
    var first := header[0 := [Bom] + header[0]];
    assert [StripBom(first[0])] + first[1..] == header;
    TrimAllOfTrimmed(header);
  }

  /** `Assemble` turns the export table back into the header and the projected records. */
  lemma AssembleExportTable(header: seq<string>, records: seq<Record>)
    requires |header| > 0
    requires Distinct(header) && forall j :: 0 <= j < |header| ==> PlainName(header[j])
    requires forall i, j :: 0 <= i < |records| && 0 <= j < |header| ==> Trimmed(Cell(records[i], header[j]))
    ensures RowsNonEmpty(ExportTable(header, records))
    ensures Assemble(ExportTable(header, records))
            == Parsed(header, seq(|records|, i requires 0 <= i < |records| => Project(header, records[i])))
  {
    var table := ExportTable(header, records);
    var p := Assemble(table);
    var want := seq(|records|, i requires 0 <= i < |records| => Project(header, records[i]));
    HeaderOfExportedHeader(header);
    forall i | 0 <= i < |records|
      ensures p.rows[i] == want[i]
    {
      AssembledExportRow(header, records, i);
    }
  }

  /** One data row of an assembled export is its record, projected. */
  lemma AssembledExportRow(header: seq<string>, records: seq<Record>, i: nat)
    requires |header| > 0 && i < |records|
    requires Distinct(header) && forall j :: 0 <= j < |header| ==> PlainName(header[j])
    requires forall j :: 0 <= j < |header| ==> Trimmed(Cell(records[i], header[j]))
    ensures RowsNonEmpty(ExportTable(header, records))
    ensures Assemble(ExportTable(header, records)).rows[i] == Project(header, records[i])
  {
    var table := ExportTable(header, records);
    var vals := RecordValues(header, records[i]);
    assert RowsNonEmpty(table);
    var p := Assemble(table);
    assert p.header == header by {
      HeaderOfExportedHeader(header);
    }
    assert p.rows[i] == RowObject(header, vals);
    RowObjectOfRecord(header, records[i]);
  }

  /** Export-then-import round trip: the importer's parser gives back the exporter's header
      and, for each record in order, exactly its values under the header names. It needs
      header names that are distinct, trimmed and free of `"`, `,`, CR and LF (the header
      line is not escaped), values without surrounding whitespace (the parser trims), and a
      last line that is not a single empty field (the end-of-input flush drops it). */
  lemma ExportThenParse(header: seq<string>, records: seq<Record>)
    requires |header| > 0 && |records| > 0
    requires Distinct(header) && forall j :: 0 <= j < |header| ==> PlainName(header[j])
    requires forall i, j :: 0 <= i < |records| && 0 <= j < |header| ==> Trimmed(Cell(records[i], header[j]))
    requires |header| == 1 ==> Cell(records[|records| - 1], header[0]) != ""
    ensures Export(header, records).Some?
    ensures ParseCsv(Export(header, records).value)
            == Parsed(header, seq(|records|, i requires 0 <= i < |records| => Project(header, records[i])))
  {
    var table := ExportTable(header, records);
    ExportIsEncodeRows(header, records);
    ParseRowsInvertsEncodeRows(table);
    AssembleExportTable(header, records);
  }
}
