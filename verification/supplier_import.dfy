/**
 * The supplier CSV import of `onCsvSelected`'s `reader.onload`
 * (app/webapp/controller/Suppliers.controller.js): parse, check the required header
 * names, then create one supplier per data row in file order, counting successes and
 * errors without ever stopping early. The backend's `create(...).created()` is abstracted
 * as `created(i)`, the outcome the backend reports for the create issued for data row `i`.
 */
module SupplierImport {
  import opened Wrappers
  import opened JsStrings
  import opened CsvParse
  import opened SupplierPayload
  import CsvExport
  import CsvRoundTrip

  /** `aRequired`, in declared order. */
  const RequiredColumns: seq<string> := ["name", "email", "tel", "address", "description"]

  /** `a` is `b` with some elements left out, the rest kept in order. */
  predicate IsSubsequence<T(==)>(a: seq<T>, b: seq<T>) {
    |a| == 0 || (|b| > 0 && ((a[0] == b[0] && IsSubsequence(a[1..], b[1..])) || IsSubsequence(a, b[1..])))
  }

  /** `aRequired.filter(h => !header.includes(h))`: exactly the required names the header
      lacks, in declared order. */
  function Missing(required: seq<string>, header: seq<string>): (missing: seq<string>)
    ensures forall c :: c in missing <==> c in required && c !in header
    ensures IsSubsequence(missing, required)
  {
    if |required| == 0 then []
    else
      var rest := Missing(required[1..], header);
      if required[0] in header then
        assert IsSubsequence(rest, required[1..]);
        rest
      else
        assert ([required[0]] + rest)[1..] == rest;
        [required[0]] + rest
  }

  /** `r[k]` on a data-row object: `undefined` when the header had no such name. */
  function Field(r: map<string, string>, k: string): Option<string> {
    if k in r then Some(r[k]) else None
  }

  /** The payload the loop builds for a row: name, email and tel are the row's cells
      with surrounding whitespace cut off, address and description the cells as they
      are, and a column the header lacks reads as `""`. */
  function RowPayload(r: map<string, string>): (p: Supplier)
    ensures IsTrimOf(p.name, Field(r, "name").GetOr(""))
    ensures IsTrimOf(p.email, Field(r, "email").GetOr(""))
    ensures IsTrimOf(p.tel, Field(r, "tel").GetOr(""))
    ensures p.address == (if "address" in r then r["address"] else "")
    ensures p.description == (if "description" in r then r["description"] else "")
  {
    BuildPayload(Field(r, "name"), Field(r, "email"), Field(r, "tel"), Field(r, "address"), Field(r, "description"))
  }

  /** The payloads of all data rows, in file order. */
  function Payloads(rows: seq<map<string, string>>): (ps: seq<Supplier>)
    ensures |ps| == |rows|
    ensures forall i :: 0 <= i < |rows| ==> ps[i] == RowPayload(rows[i])
  {
    seq(|rows|, i requires 0 <= i < |rows| => RowPayload(rows[i]))
  }

  /** A payload's name is the row's `name` cell trimmed; it is empty exactly when that
      cell is missing or blank. */
  lemma PayloadName(r: map<string, string>)
    ensures RowPayload(r).name == "" <==> !HasText(Field(r, "name"))
    ensures RowPayload(r).name == Trim(if "name" in r then r["name"] else "")
  {
    IsTrimOfIsTrim(RowPayload(r).name, Field(r, "name").GetOr(""));
  }

  /** The positions below `n` where `p` holds. */
  function Where(n: nat, p: nat -> bool): set<nat> {
    set i: nat | i < n && p(i)
  }

  /** Going one position further adds that position exactly when `p` holds there. */
  lemma WhereStep(n: nat, p: nat -> bool)
    ensures |Where(n + 1, p)| == |Where(n, p)| + (if p(n) then 1 else 0)
  {
    if p(n) {
      WhereAdds(n, p);
    } else {
      WhereSkips(n, p);
    }
  }

  lemma WhereAdds(n: nat, p: nat -> bool)
    requires p(n)
    ensures Where(n + 1, p) == Where(n, p) + {n} && n !in Where(n, p)
  {
  }

  lemma WhereSkips(n: nat, p: nat -> bool)
    requires !p(n)
    ensures Where(n + 1, p) == Where(n, p)
  {
  }

  /** Whether position `i` holds a payload with a name: a row the loop sends. */
  function Named(payloads: seq<Supplier>): nat -> bool {
    (i: nat) => i < |payloads| && payloads[i].name != ""
  }

  /** The creates the loop issues, whatever the backend answers for the earlier ones:
      exactly one per payload with a name, in file order. The create for row `i` is the
      one after those of the named rows before it. */
  function Attempts(payloads: seq<Supplier>): (creates: seq<Supplier>)
    ensures |creates| == |Where(|payloads|, Named(payloads))|
    ensures forall i :: 0 <= i < |payloads| && payloads[i].name != "" ==>
              |Where(i, Named(payloads))| < |creates| && creates[|Where(i, Named(payloads))|] == payloads[i]
  {
    if |payloads| == 0 then
      assert Where(0, Named(payloads)) == {};
      []
    else
      var m := |payloads| - 1;
      var prefix := payloads[..m];
      var rest := Attempts(prefix);
      var creates := rest + (if payloads[m].name == "" then [] else [payloads[m]]);
      forall i | 0 <= i <= m
        ensures Where(i, Named(prefix)) == Where(i, Named(payloads))
      {
        WhereAgree(i, Named(prefix), Named(payloads));
      }
      WhereStep(m, Named(payloads));
      WhereGrows(m, Named(payloads));
      creates
  }

  /** One more payload adds its create, if it has a name, at the end. */
  lemma AttemptsStep(payloads: seq<Supplier>, i: nat)
    requires i < |payloads|
    ensures Attempts(payloads[..i + 1])
            == Attempts(payloads[..i]) + (if payloads[i].name == "" then [] else [payloads[i]])
  {
    assert payloads[..i + 1][..i] == payloads[..i];
  }

  /** Two conditions that agree below `n` pick the same positions there. */
  lemma WhereAgree(n: nat, p: nat -> bool, q: nat -> bool)
    requires forall i: nat :: i < n ==> p(i) == q(i)
    ensures Where(n, p) == Where(n, q)
  {
  }

  /** Each chosen position before `n` has fewer chosen positions before it than `n`. */
  lemma WhereGrows(n: nat, p: nat -> bool)
    ensures forall i: nat :: i < n && p(i) ==> |Where(i, p)| < |Where(n, p)|
  {
    forall i: nat | i < n && p(i)
      ensures |Where(i, p)| < |Where(n, p)|
    {
      WhereStep(i, p);
      WhereMonotone(i + 1, n, p);
    }
  }

  /** Looking further never picks fewer positions. */
  lemma {:induction false} WhereMonotone(i: nat, n: nat, p: nat -> bool)
    requires i <= n
    ensures |Where(i, p)| <= |Where(n, p)|
    decreases n - i
  {
    if i < n {
      WhereStep(i, p);
      WhereMonotone(i + 1, n, p);
    }
  }

  /** Whether data row `i` ends as a success: its payload has a name and its create
      succeeded. */
  predicate Success(payloads: seq<Supplier>, created: nat -> bool, i: nat) {
    i < |payloads| && payloads[i].name != "" && created(i)
  }

  function SuccessAt(payloads: seq<Supplier>, created: nat -> bool): nat -> bool {
    (i: nat) => Success(payloads, created, i)
  }

  function FailureAt(payloads: seq<Supplier>, created: nat -> bool): nat -> bool {
    (i: nat) => !Success(payloads, created, i)
  }

  /** Rows among the first `n` whose create was issued and succeeded. */
  function Succeeded(payloads: seq<Supplier>, created: nat -> bool, n: nat): set<nat> {
    Where(n, SuccessAt(payloads, created))
  }

  /** Rows among the first `n` counted as errors: no name, or a failed create. */
  function Failed(payloads: seq<Supplier>, created: nat -> bool, n: nat): set<nat> {
    Where(n, FailureAt(payloads, created))
  }

  /** Row `i` joins exactly one of the two sets. */
  lemma CountStep(payloads: seq<Supplier>, created: nat -> bool, i: nat)
    requires i < |payloads|
    ensures |Succeeded(payloads, created, i + 1)|
            == |Succeeded(payloads, created, i)| + (if payloads[i].name != "" && created(i) then 1 else 0)
    ensures |Failed(payloads, created, i + 1)|
            == |Failed(payloads, created, i)| + (if payloads[i].name != "" && created(i) then 0 else 1)
  {
    WhereStep(i, SuccessAt(payloads, created));
    WhereStep(i, FailureAt(payloads, created));
    assert SuccessAt(payloads, created)(i) == (payloads[i].name != "" && created(i));
  }

  /** The counting loop, given each data row's payload. Every row is counted exactly
      once, as a success or as an error; the creates are those of `Attempts`, whatever
      `created` answers, so a failure never stops the rows after it. */
  method CountImport(payloads: seq<Supplier>, created: nat -> bool)
    returns (successCount: nat, errorCount: nat, creates: seq<Supplier>)
    ensures successCount == |Succeeded(payloads, created, |payloads|)|
    ensures errorCount == |Failed(payloads, created, |payloads|)|
    ensures successCount + errorCount == |payloads|
    ensures creates == Attempts(payloads)
  {
    successCount, errorCount, creates := 0, 0, [];
    var i := 0;
    assert Succeeded(payloads, created, 0) == {};
    assert Failed(payloads, created, 0) == {};
    while i < |payloads|
      invariant 0 <= i <= |payloads|
      invariant successCount == |Succeeded(payloads, created, i)|
      invariant errorCount == |Failed(payloads, created, i)|
      invariant successCount + errorCount == i
      invariant creates == Attempts(payloads[..i])
    {
      CountStep(payloads, created, i);
      AttemptsStep(payloads, i);
      var payload := payloads[i];
      if payload.name == "" {
        errorCount := errorCount + 1;
      } else {
        creates := creates + [payload];
        if created(i) {
          successCount := successCount + 1;
        } else {
          errorCount := errorCount + 1;
        }
      }
      i := i + 1;
    }
    assert payloads[..i] == payloads;
  }

  /** The columns the supplier export writes are plain, distinct names. */
  lemma SupplierColumnsArePlain()
    ensures CsvRoundTrip.Distinct(CsvExport.SupplierColumns)
    ensures forall j :: 0 <= j < |CsvExport.SupplierColumns| ==> CsvRoundTrip.PlainName(CsvExport.SupplierColumns[j])
  {
    var cols := CsvExport.SupplierColumns;
    forall j | 0 <= j < |cols|
      ensures CsvRoundTrip.PlainName(cols[j])
    {
      assert forall k :: 0 <= k < |cols[j]| ==> 'a' <= cols[j][k] <= 'z';
    }
  }

  /** The export writes every name the import requires. */
  lemma SupplierColumnsMeetRequired()
    ensures Missing(RequiredColumns, CsvExport.SupplierColumns) == []
  {
    var cols := CsvExport.SupplierColumns;
    assert forall c :: c in RequiredColumns ==> c in cols;
  }

  /** An export of suppliers with trimmed values reads back through the parser as the
      five columns and each record restricted to them, and so passes the import's header
      check. */
  lemma ExportedSuppliersPassHeaderCheck(records: seq<CsvExport.Record>)
    requires |records| > 0
    requires forall i, j :: 0 <= i < |records| && 0 <= j < |CsvExport.SupplierColumns| ==>
               Trimmed(CsvExport.Cell(records[i], CsvExport.SupplierColumns[j]))
    ensures CsvExport.Export(CsvExport.SupplierColumns, records).Some?
    ensures ParseCsv(CsvExport.Export(CsvExport.SupplierColumns, records).value)
            == Parsed(CsvExport.SupplierColumns,
                      seq(|records|, i requires 0 <= i < |records| => CsvRoundTrip.Project(CsvExport.SupplierColumns, records[i])))
    ensures Missing(RequiredColumns, ParseCsv(CsvExport.Export(CsvExport.SupplierColumns, records).value).header) == []
  {
    SupplierColumnsArePlain();
    SupplierColumnsMeetRequired();
    CsvRoundTrip.ExportThenParse(CsvExport.SupplierColumns, records);
  }

  datatype ImportResult =
    | HeaderRejected(missing: seq<string>)
    | Imported(successCount: nat, errorCount: nat, creates: seq<Supplier>)

  /** `reader.onload`: a header lacking a required name stops the import before any
      create and reports the missing names; otherwise every data row is counted. */
  method ImportCsv(text: string, created: nat -> bool) returns (result: ImportResult)
    ensures var p := ParseCsv(text);
            var missing := Missing(RequiredColumns, p.header);
            var payloads := Payloads(p.rows);
            && (result.HeaderRejected? <==> |missing| > 0)
            && (result.HeaderRejected? ==> result.missing == missing)
            && (result.Imported? ==>
                  && result.successCount + result.errorCount == |p.rows|
                  && result.successCount == |Succeeded(payloads, created, |p.rows|)|
                  && result.errorCount == |Failed(payloads, created, |p.rows|)|
                  && result.creates == Attempts(payloads))
  {
    var p := ParseCsv(text);
    var missing := Missing(RequiredColumns, p.header);
    if |missing| > 0 {
      return HeaderRejected(missing);
    }
    var s, e, creates := CountImport(Payloads(p.rows), created);
    return Imported(s, e, creates);
  }
}
