/**
 * The supplier CSV importer's parser, `_parseCSV`
 * (app/webapp/controller/Suppliers.controller.js), as written: one left-to-right pass
 * with an `inQuotes` flag and one character of lookahead for a doubled quote, a final
 * flush, then header trimming and the mapping of each later row onto the header.
 *
 * Beside it, a three-state automaton that reads one character at a time without
 * lookahead; `ScanIsAutomaton` proves the two agree, and the automaton's
 * compositionality gives the line-ending lemmas.
 */
module CsvParse {
  import opened JsStrings

  /** The three buffers of the loop: finished rows, the current row, the current field. */
  datatype Buffers = Buffers(rows: seq<seq<string>>, cur: seq<string>, field: string)

  /** The loop state of `_parseCSV`. */
  datatype ScanState = ScanState(buf: Buffers, inQuotes: bool)

  const Empty: Buffers := Buffers([], [], "")
  const Start: ScanState := ScanState(Empty, false)

  /** `field += s`. */
  function Append(b: Buffers, s: string): Buffers {
    b.(field := b.field + s)
  }

  /** The fields of a row, run together. */
  function Concat(fields: seq<string>): string {
    if |fields| == 0 then [] else Concat(fields[..|fields| - 1]) + fields[|fields| - 1]
  }

  /** The fields of all rows, run together. */
  function ConcatRows(rows: seq<seq<string>>): string {
    if |rows| == 0 then [] else ConcatRows(rows[..|rows| - 1]) + Concat(rows[|rows| - 1])
  }

  /** All the text the buffers hold, in reading order. */
  function Content(b: Buffers): string {
    ConcatRows(b.rows) + Concat(b.cur) + b.field
  }

  /** `pushField`: the current field joins the current row and a new, empty field
      starts; no text is lost or reordered. */
  function PushField(b: Buffers): (r: Buffers)
    ensures r.rows == b.rows && r.field == [] && r.cur == b.cur + [b.field]
    ensures Content(r) == Content(b)
  {
    var r := Buffers(b.rows, b.cur + [b.field], []);
    assert r.cur[..|r.cur| - 1] == b.cur;
    r
  }

  /** `pushRow`: the current row joins the finished rows and a new, empty row starts;
      no text is lost or reordered. */
  function PushRow(b: Buffers): (r: Buffers)
    ensures r.rows == b.rows + [b.cur] && r.cur == [] && r.field == b.field
    ensures Content(r) == Content(b)
  {
    var r := Buffers(b.rows + [b.cur], [], b.field);
    assert r.rows[..|r.rows| - 1] == b.rows;
    r
  }

  /** Every finished row has at least one field. */
  predicate RowsNonEmpty(rows: seq<seq<string>>) {
    forall i :: 0 <= i < |rows| ==> |rows[i]| > 0
  }

  /** The loop of `_parseCSV`, from position 0 of `text` on. Rows are only ever appended,
      and every row it finishes has at least one field. */
  function Scan(text: string, st: ScanState): (r: ScanState)
    ensures st.buf.rows <= r.buf.rows
    ensures RowsNonEmpty(st.buf.rows) ==> RowsNonEmpty(r.buf.rows)
    decreases |text|
  {
    if |text| == 0 then st
    else
      var ch := text[0];
      if st.inQuotes then
        if ch == '"' then
          if |text| > 1 && text[1] == '"' then Scan(text[2..], ScanState(Append(st.buf, "\""), true))
          else Scan(text[1..], ScanState(st.buf, false))
        else Scan(text[1..], ScanState(Append(st.buf, [ch]), true))
      else if ch == '"' then Scan(text[1..], ScanState(st.buf, true))
      else if ch == ',' then Scan(text[1..], ScanState(PushField(st.buf), false))
      else if ch == '\r' then Scan(text[1..], st)
      else if ch == '\n' then Scan(text[1..], ScanState(PushRow(PushField(st.buf)), false))
      else Scan(text[1..], ScanState(Append(st.buf, [ch]), false))
  }

  /** The last row is kept when it has more than one field or a single non-empty one. */
  predicate KeepLastRow(cur: seq<string>) {
    |cur| > 1 || (|cur| == 1 && cur[0] != "")
  }

  /** End of input: the last field is always flushed; its row is kept only as
      `KeepLastRow` says. */
  function Finish(b: Buffers): (rows: seq<seq<string>>)
    ensures var last := b.cur + [b.field];
            rows == if KeepLastRow(last) then b.rows + [last] else b.rows
  {
    var f := PushField(b);
    if KeepLastRow(f.cur) then PushRow(f).rows else f.rows
  }

  /** The raw rows `_parseCSV` finds in `text`, before trimming and mapping. */
  function ParseRows(text: string): (rows: seq<seq<string>>)
    ensures RowsNonEmpty(rows)
  {
    Finish(Scan(text, Start).buf)
  }

  /** `replace(/^\uFEFF/, "")`: one leading byte-order mark removed. */
  function StripBom(s: string): (r: string)
    ensures |s| > 0 && s[0] == '\U{FEFF}' ==> r == s[1..]
    ensures (|s| == 0 || s[0] != '\U{FEFF}') ==> r == s
  {
    if |s| > 0 && s[0] == '\U{FEFF}' then s[1..] else s
  }

  function TrimAll(xs: seq<string>): (r: seq<string>)
    ensures |r| == |xs| && forall i :: 0 <= i < |xs| ==> r[i] == Trim(xs[i])
  {
    seq(|xs|, i requires 0 <= i < |xs| => Trim(xs[i]))
  }

  /** Trimming names that are already trimmed changes none of them. */
  lemma TrimAllOfTrimmed(xs: seq<string>)
    requires forall i :: 0 <= i < |xs| ==> Trimmed(xs[i])
    ensures TrimAll(xs) == xs
  {
    forall i | 0 <= i < |xs|
      ensures TrimAll(xs)[i] == xs[i]
    {
      TrimOfTrimmed(xs[i]);
    }
  }

  /** `r[idx] || ""`: the field at `idx`, empty past the end of the row. */
  function FieldAt(r: seq<string>, idx: nat): string {
    if idx < |r| then r[idx] else ""
  }

  /** No later position in `header[..n]` holds the same name as position `j`. */
  predicate LastOccurrence(header: seq<string>, n: nat, j: nat)
    requires j < n <= |header|
  {
    forall k :: j < k < n ==> header[k] != header[j]
  }

  /** `obj[h] = v` for the first `n` names and their values, in order: every name is a
      key, and when a name repeats the later position wins. */
  function Assign(header: seq<string>, vals: seq<string>, n: nat): (obj: map<string, string>)
    requires n <= |header| && n <= |vals|
    ensures obj.Keys == set j | 0 <= j < n :: header[j]
    ensures forall j :: 0 <= j < n && LastOccurrence(header, n, j) ==> obj[header[j]] == vals[j]
    ensures (forall j :: 0 <= j < n ==> Trimmed(vals[j])) ==> forall k :: k in obj ==> Trimmed(obj[k])
  {
    if n == 0 then map[]
    else
      NamesStep(header, n);
      Assign(header, vals, n - 1)[header[n - 1] := vals[n - 1]]
  }

  /** The names among the first `n` are those among the first `n - 1` and one more. */
  lemma NamesStep(header: seq<string>, n: nat)
    requires 0 < n <= |header|
    ensures (set j | 0 <= j < n :: header[j]) == (set j | 0 <= j < n - 1 :: header[j]) + {header[n - 1]}
  {
  }

  /** `header.forEach((h, idx) => obj[h] = (r[idx] || "").trim())` over the first `n`
      names: every name is a key, and when a name repeats the later position wins. */
  function AssignFields(header: seq<string>, r: seq<string>, n: nat): (obj: map<string, string>)
    requires n <= |header|
    ensures obj.Keys == set j | 0 <= j < n :: header[j]
    ensures forall j :: 0 <= j < n && LastOccurrence(header, n, j) ==>
              obj[header[j]] == Trim(FieldAt(r, j))
    ensures forall k :: k in obj ==> Trimmed(obj[k])
  {
    var vals := seq(n, j requires 0 <= j < n => Trim(FieldAt(r, j)));
    Assign(header, vals, n)
  }

  /** The byte-order mark is itself whitespace to `trim`, so removing it before trimming
      changes nothing: the header is the same with or without the explicit removal. */
  lemma BomRemovalIsRedundant(s: string)
    ensures Trim(StripBom(s)) == Trim(s)
  {
    if |s| > 0 && s[0] == '\U{FEFF}' {
      assert s == [s[0]] + s[1..];
      TrimAfterSpace(s[0], s[1..]);
    }
  }

  /** The data object for one raw row. */
  function RowObject(header: seq<string>, r: seq<string>): map<string, string> {
    AssignFields(header, r, |header|)
  }

  /** A row of trimmed fields, one per header name, is assigned as it is. */
  lemma RowObjectOfTrimmed(header: seq<string>, r: seq<string>)
    requires |r| == |header| && forall j :: 0 <= j < |r| ==> Trimmed(r[j])
    ensures RowObject(header, r) == Assign(header, r, |header|)
  {
    var n := |header|;
    var vals := seq(n, j requires 0 <= j < n => Trim(FieldAt(r, j)));
    forall j | 0 <= j < n
      ensures vals[j] == r[j]
    {
      TrimOfTrimmed(r[j]);
    }
    assert vals == r;
  }

  /** What `_parseCSV` returns: the header names and one object per data row. */
  datatype Parsed = Parsed(header: seq<string>, rows: seq<map<string, string>>)

  /** `rows[0].map(h => h.trim())` after the byte-order mark is removed from the first
      cell: every cell trimmed, the first one also without a leading mark. */
  function HeaderOf(first: seq<string>): (h: seq<string>)
    requires |first| > 0
    ensures |h| == |first|
    ensures h[0] == Trim(StripBom(first[0]))
    ensures forall j :: 1 <= j < |h| ==> h[j] == Trim(first[j])
    ensures forall j :: 0 <= j < |h| ==> Trimmed(h[j])
  {
    var cells := [StripBom(first[0])] + first[1..];
    assert forall j :: 1 <= j < |cells| ==> cells[j] == first[j];
    TrimAll(cells)
  }

  /** The second half of `_parseCSV`, from raw rows to the result. With no rows the result
      is empty; otherwise the header is the first row made into names by `HeaderOf`, and
      every later row, in order, becomes the object `RowObject` builds from the header. */
  function Assemble(raw: seq<seq<string>>): (p: Parsed)
    requires RowsNonEmpty(raw)
    ensures |raw| == 0 ==> p == Parsed([], [])
    ensures |raw| > 0 ==>
              && p.header == HeaderOf(raw[0])
              && |p.rows| == |raw| - 1
              && forall i :: 0 <= i < |p.rows| ==> p.rows[i] == RowObject(p.header, raw[i + 1])
  {
    if |raw| == 0 then Parsed([], [])
    else
      var header := HeaderOf(raw[0]);
      var data := raw[1..];
      assert forall i :: 0 <= i < |data| ==> data[i] == raw[i + 1];
      Parsed(header, Objects(header, data))
  }

  /** Each assembled data row has exactly the header names as keys, and under each name
      the trimmed field at its last position in the header, `""` past the end of the row. */
  lemma AssembledRow(raw: seq<seq<string>>, i: nat)
    requires RowsNonEmpty(raw) && i + 1 < |raw|
    ensures var p := Assemble(raw);
            && p.rows[i].Keys == (set j | 0 <= j < |p.header| :: p.header[j])
            && forall j :: 0 <= j < |p.header| && LastOccurrence(p.header, |p.header|, j) ==>
                 p.rows[i][p.header[j]] == Trim(FieldAt(raw[i + 1], j))
  {
    var p := Assemble(raw);
    var obj := RowObject(p.header, raw[i + 1]);
    assert p.rows[i] == obj;
  }

  /** `rows.slice(1).map(...)`: one object per data row, in order. */
  function Objects(header: seq<string>, data: seq<seq<string>>): (objs: seq<map<string, string>>)
    ensures |objs| == |data|
    ensures forall i :: 0 <= i < |data| ==> objs[i] == RowObject(header, data[i])
  {
    seq(|data|, i requires 0 <= i < |data| => RowObject(header, data[i]))
  }

  /** `_parseCSV`: the scan, the end-of-input flush, then `Assemble`. An empty text
      gives no header and no rows; every header name is trimmed, and every data object
      has exactly the header names as keys, each holding a trimmed value. */
  function ParseCsv(text: string): (p: Parsed)
    ensures text == [] ==> p == Parsed([], [])
    ensures forall j :: 0 <= j < |p.header| ==> Trimmed(p.header[j])
    ensures forall i :: 0 <= i < |p.rows| ==>
              && p.rows[i].Keys == (set j | 0 <= j < |p.header| :: p.header[j])
              && forall k :: k in p.rows[i] ==> Trimmed(p.rows[i][k])
  {
    var raw := ParseRows(text);
    assert text == [] ==> raw == [];
    Assemble(raw)
  }

  // ---------------------------------------------------------------------------------
  // A reference automaton without lookahead.

  /** `QuoteSeen` is "inside quotes, and the last character was a quote": the decision
      `_parseCSV` takes by looking one character ahead is deferred to the next character. */
  datatype Mode = Plain | Quoted | QuoteSeen

  datatype Machine = Machine(buf: Buffers, mode: Mode)

  function PlainStep(b: Buffers, ch: char): Machine {
    if ch == '"' then Machine(b, Quoted)
    else if ch == ',' then Machine(PushField(b), Plain)
    else if ch == '\r' then Machine(b, Plain)
    else if ch == '\n' then Machine(PushRow(PushField(b)), Plain)
    else Machine(Append(b, [ch]), Plain)
  }

  function Step(m: Machine, ch: char): Machine {
    match m.mode
    case Plain => PlainStep(m.buf, ch)
    case Quoted => if ch == '"' then Machine(m.buf, QuoteSeen) else Machine(Append(m.buf, [ch]), Quoted)
    case QuoteSeen => if ch == '"' then Machine(Append(m.buf, "\""), Quoted) else PlainStep(m.buf, ch)
  }

  function Run(text: string, m: Machine): Machine
    decreases |text|
  {
    if |text| == 0 then m else Run(text[1..], Step(m, text[0]))
  }

  function Lift(st: ScanState): Machine {
    Machine(st.buf, if st.inQuotes then Quoted else Plain)
  }

  function Forget(m: Machine): ScanState {
    ScanState(m.buf, m.mode == Quoted)
  }

  /** Running the automaton over a concatenation is running it over each part in turn. */
  lemma {:induction false} RunAppend(a: string, b: string, m: Machine)
    ensures Run(a + b, m) == Run(b, Run(a, m))
    decreases |a|
  {
    if |a| == 0 {
      assert a + b == b;
    } else {
      assert (a + b)[0] == a[0];
      assert (a + b)[1..] == a[1..] + b;
      RunAppend(a[1..], b, Step(m, a[0]));
    }
  }

  /** The lookahead loop of `_parseCSV` and the automaton end in the same state. */
  lemma {:induction false} ScanIsAutomaton(text: string, st: ScanState)
    ensures Scan(text, st) == Forget(Run(text, Lift(st)))
    decreases |text|
  {
    if |text| == 0 {
    } else if st.inQuotes && text[0] == '"' {
      var seen := Machine(st.buf, QuoteSeen);
      assert Run(text, Lift(st)) == Run(text[1..], seen);
      if |text| > 1 && text[1] == '"' {
        var next := ScanState(Append(st.buf, "\""), true);
        assert text[1..][1..] == text[2..];
        assert Run(text[1..], seen) == Run(text[2..], Lift(next));
        ScanIsAutomaton(text[2..], next);
      } else {
        var next := ScanState(st.buf, false);
        if |text| > 1 {
          assert Step(seen, text[1]) == Step(Lift(next), text[1]);
          assert Run(text[1..], seen) == Run(text[1..], Lift(next));
        }
        ScanIsAutomaton(text[1..], next);
      }
    } else {
      ScanIsAutomaton(text[1..], Forget(Step(Lift(st), text[0])));
    }
  }

  /** Outside quotes, a row ending in CRLF reads exactly like one ending in LF: the two
      inputs decode to the same rows. */
  lemma CrlfReadsAsLf(a: string, b: string)
    requires !Scan(a, Start).inQuotes
    ensures ParseRows(a + "\r\n" + b) == ParseRows(a + "\n" + b)
  {
    ScanIsAutomaton(a, Start);
    CrlfStep(Run(a, Lift(Start)));
    ParseRowsInParts(a, "\r\n", b);
    ParseRowsInParts(a, "\n", b);
  }

  /** Outside quotes, the automaton treats CRLF as LF. */
  lemma CrlfStep(m: Machine)
    requires m.mode != Quoted
    ensures Run("\r\n", m) == Run("\n", m)
  {
    var plain := Machine(m.buf, Plain);
    assert Step(m, '\r') == plain;
    assert Step(m, '\n') == Step(plain, '\n');
    assert Run("\r\n", m) == Run("\n", plain);
  }

  /** The rows of a text in three parts, read through the automaton part by part. */
  lemma ParseRowsInParts(a: string, c: string, b: string)
    ensures ParseRows(a + c + b) == Finish(Forget(Run(b, Run(c, Run(a, Lift(Start))))).buf)
  {
    assert a + c + b == a + (c + b);
    RunAppend(a, c + b, Lift(Start));
    RunAppend(c, b, Run(a, Lift(Start)));
    ScanIsAutomaton(a + c + b, Start);
  }

  /** A final line break after a kept row adds no row: the flush at end of input drops the
      single empty field that follows it. */
  lemma TrailingNewlineAddsNoRow(t: string)
    requires !Scan(t, Start).inQuotes
    requires KeepLastRow(Scan(t, Start).buf.cur + [Scan(t, Start).buf.field])
    ensures ParseRows(t + "\n") == ParseRows(t)
  {
    var m := Run(t, Lift(Start));
    ScanIsAutomaton(t, Start);
    RunAppend(t, "\n", Lift(Start));
    ScanIsAutomaton(t + "\n", Start);
    assert Run("\n", m) == Machine(PushRow(PushField(m.buf)), Plain);
  }
}
