/**
 * The supplier CSV exporter: `csvEscape` and the line assembly of `onExportCSV`
 * (app/webapp/controller/Suppliers.controller.js). Gathering the records from the table
 * and saving the file are outside the model; the exporter starts from a list of records.
 */
module CsvExport {
  import opened Wrappers
  import opened JsStrings

  /** A record as the exporter reads it: `o[h]` is `undefined` when `h` is not a key. */
  type Record = map<string, Option<string>>

  /** The byte-order mark the exported text starts with. */
  const Bom: char := '\U{FEFF}'

  /** The columns the supplier export writes, in order. */
  const SupplierColumns: seq<string> := ["name", "email", "tel", "address", "description"]

  /** The characters that force a field into quotes: `/[",\r\n]/`. */
  predicate IsSpecial(c: char) {
    c == '"' || c == ',' || c == '\r' || c == '\n'
  }

  predicate HasSpecial(s: string) {
    exists i :: 0 <= i < |s| && IsSpecial(s[i])
  }

  function QuoteCount(s: string): nat {
    if |s| == 0 then 0 else (if s[0] == '"' then 1 else 0) + QuoteCount(s[1..])
  }

  /** `str.replace(/"/g, '""')`: every quote doubled, nothing else touched. */
  function DoubleQuotes(s: string): (r: string)
    ensures |r| == |s| + QuoteCount(s)
    ensures forall c :: c in r <==> c in s
  {
    if |s| == 0 then []
    else (if s[0] == '"' then "\"\"" else [s[0]]) + DoubleQuotes(s[1..])
  }

  /** Where character `i` of `s` lands once the quotes before it have been doubled. */
  function Shifted(s: string, i: nat): nat
    requires i <= |s|
  {
    i + QuoteCount(s[..i])
  }

  /** Every character of `s` keeps its place, moved right by the quotes doubled before it,
      and every quote is followed by its double; with the length, nothing else is in the
      result. */
  lemma {:induction false} DoubleQuotesInPlace(s: string)
    ensures forall i :: 0 <= i < |s| ==>
              Shifted(s, i) < |DoubleQuotes(s)| && DoubleQuotes(s)[Shifted(s, i)] == s[i]
    ensures forall i :: 0 <= i < |s| && s[i] == '"' ==>
              Shifted(s, i) + 1 < |DoubleQuotes(s)| && DoubleQuotes(s)[Shifted(s, i) + 1] == '"'
  {
    if |s| > 0 {
      var r, t := DoubleQuotes(s), DoubleQuotes(s[1..]);
      var h := if s[0] == '"' then 2 else 1;
      assert r == (if s[0] == '"' then "\"\"" else [s[0]]) + t;
      DoubleQuotesInPlace(s[1..]);
      forall i | 1 <= i < |s|
        ensures Shifted(s, i) == h + Shifted(s[1..], i - 1)
      {
        assert s[..i] == [s[0]] + s[1..][..i - 1];
        assert s[..i][1..] == s[1..][..i - 1];
      }
    }
  }

  /** `csvEscape` on a present value. */
  function EscapeText(s: string): string {
    var escaped := DoubleQuotes(s);
    if HasSpecial(escaped) then "\"" + escaped + "\"" else escaped
  }

  /** `csvEscape`: `null`/`undefined` become the empty field; a value is quoted exactly
      when it contains a quote, a comma, CR or LF (doubling quotes never adds or removes
      one of those), and is otherwise written unchanged. */
  function CsvEscape(v: Option<string>): (r: string)
    ensures v.None? ==> r == []
    ensures v.Some? && !HasSpecial(v.value) ==> r == v.value
    ensures v.Some? && HasSpecial(v.value) ==>
              |r| >= 2 && r[0] == '"' && r[|r| - 1] == '"'
              && r[1..|r| - 1] == DoubleQuotes(v.value)
    ensures v.Some? ==> |r| == |v.value| + QuoteCount(v.value)
                               + (if HasSpecial(v.value) then 2 else 0)
  {
    match v
    case None => []
    case Some(s) =>
      EscapedHasSpecial(s);
      NoSpecialUnchanged(s);
      EscapeText(s)
  }

  /** Doubling quotes keeps the question "needs quoting?" unchanged. */
  lemma EscapedHasSpecial(s: string)
    ensures HasSpecial(DoubleQuotes(s)) == HasSpecial(s)
  {
    var e := DoubleQuotes(s);
    if HasSpecial(s) {
      var i :| 0 <= i < |s| && IsSpecial(s[i]);
      assert s[i] in e;
    }
    if HasSpecial(e) {
      var i :| 0 <= i < |e| && IsSpecial(e[i]);
      assert e[i] in s;
    }
  }

  lemma NoSpecialUnchanged(s: string)
    ensures !HasSpecial(s) ==> DoubleQuotes(s) == s
  {
    if !HasSpecial(s) {
      NoQuotesUnchanged(s);
    }
  }

  /** A text without quotes is left as it is by `DoubleQuotes`. */
  lemma {:induction false} NoQuotesUnchanged(s: string)
    requires '"' !in s
    ensures DoubleQuotes(s) == s
  {
    if |s| > 0 {
      assert s == [s[0]] + s[1..];
      NoQuotesUnchanged(s[1..]);
    }
  }

  /** `o[h]`: the value of column `h`, `undefined` when the record has no such key. */
  function Lookup(o: Record, h: string): Option<string> {
    if h in o then o[h] else None
  }

  /** The text a record contributes to column `h` once read back: `""` for a missing value. */
  function Cell(o: Record, h: string): string {
    Lookup(o, h).GetOr("")
  }

  /** One record's line: its escaped values in header order, joined by commas. */
  function RecordLine(header: seq<string>, o: Record): string {
    Join(",", seq(|header|, j requires 0 <= j < |header| => CsvEscape(Lookup(o, header[j]))))
  }

  /** The exported lines: the header joined by commas without escaping, then one line per
      record in order. */
  function Lines(header: seq<string>, records: seq<Record>): (ls: seq<string>)
    ensures |ls| == |records| + 1
    ensures ls[0] == Join(",", header)
    ensures forall i :: 0 <= i < |records| ==> ls[i + 1] == RecordLine(header, records[i])
  {
    [Join(",", header)] + seq(|records|, i requires 0 <= i < |records| => RecordLine(header, records[i]))
  }

  /** The export: nothing when there are no records; otherwise the byte-order mark followed
      by the lines joined by CRLF, with no CRLF after the last one. */
  function Export(header: seq<string>, records: seq<Record>): (r: Option<string>)
    ensures r.None? <==> |records| == 0
    ensures r.Some? ==> |r.value| > 0 && r.value[0] == Bom
                        && r.value[1..] == Join("\r\n", Lines(header, records))
  {
    if |records| == 0 then None
    else Some([Bom] + Join("\r\n", Lines(header, records)))
  }
}
