/**
 * The create-product form (app/webapp/controller/Create-product.controller.js): the
 * numeric-string check, field validation, the payload, the `clearEnabled` flag and the
 * order of the checks in `onSave`. `Number(v)` followed by `Number.isFinite` is left
 * abstract as the parameter `finite`; the backend create is outside the model.
 */
module ProductForm {
  import opened Wrappers
  import opened JsStrings

  /** The `formValues` model. `None` is `null`/`undefined`. */
  datatype Form = Form(
    name: Option<string>,
    description: Option<string>,
    category: Option<string>,
    price: Option<string>,
    stock: Option<string>,
    supplierUuid: Option<string>,
    test: Option<string>)

  /** `initFormValues`: empty texts, and `null` price, stock and supplier. */
  const InitialForm: Form := Form(Some(""), Some(""), Some(""), None, None, None, Some(""))

  // ---------------------------------------------------------------------------------
  // `_isPureNumericString`: the regular expression /^\s*[+-]?\d+(\.\d+)?\s*$/
  // ---------------------------------------------------------------------------------

  predicate AllDigits(s: string) {
    forall i :: 0 <= i < |s| ==> IsDigit(s[i])
  }

  predicate IsSign(c: char) {
    c == '+' || c == '-'
  }

  /** The number of digits `s` starts with. */
  function DigitRun(s: string): (n: nat)
    ensures n <= |s|
    ensures forall k :: 0 <= k < n ==> IsDigit(s[k])
    ensures n == |s| || !IsDigit(s[n])
  {
    if |s| > 0 && IsDigit(s[0]) then 1 + DigitRun(s[1..]) else 0
  }

  /** `\d+(\.\d+)?` on a whole string, read left to right: a run of digits, then either
      the end or a dot followed by digits to the end. */
  predicate Unsigned(u: string) {
    var k := DigitRun(u);
    k > 0 && (k == |u| || (u[k] == '.' && k + 1 < |u| && AllDigits(u[k + 1..])))
  }

  /** `[+-]?\d+(\.\d+)?` on a whole string. */
  predicate NumericCore(t: string) {
    if |t| > 0 && IsSign(t[0]) then Unsigned(t[1..]) else Unsigned(t)
  }

  /** `(\.\d+)?`: empty, or a dot followed by at least one digit. */
  predicate Fraction(f: string) {
    |f| == 0 || (|f| >= 2 && f[0] == '.' && AllDigits(f[1..]))
  }

  /** The regular expression's own reading of `s`: leading whitespace `s[..i]`, an
      optional sign `s[i..j]`, digits `s[j..k]`, a fraction `s[k..l]`, trailing
      whitespace `s[l..]`. */
  predicate NumericSplit(s: string, i: int, j: int, k: int, l: int) {
    && 0 <= i <= j < k <= l <= |s|
    && AllWhitespace(s[..i])
    && (j == i || (j == i + 1 && IsSign(s[i])))
    && AllDigits(s[j..k])
    && Fraction(s[k..l])
    && AllWhitespace(s[l..])
  }

  /** Some way to match the whole of `s` against the pattern. */
  ghost predicate MatchesNumeric(s: string) {
    exists i, j, k, l :: NumericSplit(s, i, j, k, l)
  }

  /** A run of digits followed by a non-digit (or nothing) is read as exactly that run. */
  lemma {:induction false} DigitRunOf(d: string, rest: string)
    requires AllDigits(d)
    requires |rest| == 0 || !IsDigit(rest[0])
    ensures DigitRun(d + rest) == |d|
  {
    if |d| > 0 {
      assert (d + rest)[1..] == d[1..] + rest;
      DigitRunOf(d[1..], rest);
    } else {
      assert d + rest == rest;
    }
  }

  /** The trimmed-then-core reading finds a split of the pattern. */
  lemma PureNumericMatches(s: string)
    requires NumericCore(Trim(s))
    ensures MatchesNumeric(s)
  {
    TrimDecompose(s);
    CoreMatches(s, LeadingSpace(s), Trim(s));
  }

  /** A core between two runs of whitespace matches the pattern. */
  lemma CoreMatches(s: string, i: nat, t: string)
    requires i + |t| <= |s| && s[i..i + |t|] == t
    requires AllWhitespace(s[..i]) && AllWhitespace(s[i + |t|..])
    requires NumericCore(t)
    ensures MatchesNumeric(s)
  {
    var g := if |t| > 0 && IsSign(t[0]) then 1 else 0;
    var u := t[g..];
    var k0 := DigitRun(u);
    var j, k, l := i + g, i + g + k0, i + |t|;
    assert AllDigits(s[j..k]) by {
      forall m | 0 <= m < k - j ensures IsDigit(s[j..k][m]) {
        assert s[j..k][m] == u[m];
      }
    }
    assert Fraction(s[k..l]) by {
      if k0 < |u| {
        assert s[k..l][0] == u[k0];
        forall m | 1 <= m < l - k ensures IsDigit(s[k..l][m]) {
          assert s[k..l][m] == u[k0 + 1..][m - 1];
        }
      }
    }
    assert NumericSplit(s, i, j, k, l);
  }

  /** Digits followed by a fraction read as an unsigned number. */
  lemma UnsignedOf(d: string, frac: string)
    requires |d| > 0 && AllDigits(d) && Fraction(frac)
    ensures Unsigned(d + frac)
  {
    var u := d + frac;
    DigitRunOf(d, frac);
    if |frac| > 0 {
      assert u[|d|] == frac[0];
      assert u[|d| + 1..] == frac[1..];
    }
  }

  /** Under a split, the part between the two whitespace runs is the core. */
  lemma SplitCore(s: string, i: int, j: int, k: int, l: int)
    requires NumericSplit(s, i, j, k, l)
    ensures NumericCore(s[i..l])
  {
    var core := s[i..l];
    assert s[j..l] == s[j..k] + s[k..l];
    UnsignedOf(s[j..k], s[k..l]);
    assert core[j - i..] == s[j..l];
    if j == i {
      assert core[0] == s[j..k][0];
    } else {
      assert core[0] == s[i];
    }
  }

  /** Under a split, trimming leaves exactly the part between the whitespace runs. */
  lemma SplitTrim(s: string, i: int, j: int, k: int, l: int)
    requires NumericSplit(s, i, j, k, l)
    ensures Trim(s) == s[i..l]
  {
    var core := s[i..l];
    assert s == s[..i] + core + s[l..];
    assert !IsWhitespace(core[0]) by {
      if j == i { assert core[0] == s[j..k][0]; } else { assert core[0] == s[i]; }
    }
    assert IsDigit(core[|core| - 1]) by {
      if l == k {
        assert core[|core| - 1] == s[j..k][k - 1 - j];
      } else {
        assert core[|core| - 1] == s[k..l][l - 1 - k];
      }
    }
    TrimAround(s[..i], core, s[l..]);
  }

  /** Reading the trimmed text as the core accepts exactly what the regular expression
      matches. */
  lemma CoreOfTrimIffMatches(s: string)
    ensures NumericCore(Trim(s)) <==> MatchesNumeric(s)
  {
    if NumericCore(Trim(s)) {
      PureNumericMatches(s);
    }
    if MatchesNumeric(s) {
      var i, j, k, l :| NumericSplit(s, i, j, k, l);
      SplitTrim(s, i, j, k, l);
      SplitCore(s, i, j, k, l);
    }
  }

  /** `_isPureNumericString`: `false` for a non-string; otherwise the pattern's `\s*` on
      both sides take the surrounding whitespace, so the trimmed text must be the core.
      It accepts exactly the strings the regular expression matches, and only strings
      with text. */
  function IsPureNumericString(v: Option<string>): (r: bool)
    ensures r <==> v.Some? && MatchesNumeric(v.value)
    ensures r ==> HasText(v)
  {
    if v.None? then false
    else
      CoreOfTrimIffMatches(v.value);
      TrimEmptyIffBlank(v.value);
      NumericCore(Trim(v.value))
  }

  /** `_isPureNumericString` accepts exactly the strings the regular expression matches. */
  lemma PureNumericIffMatches(s: string)
    ensures IsPureNumericString(Some(s)) <==> MatchesNumeric(s)
  {
  }

  /** A pure numeric string always has text, so the `_hasText` guard in front of each
      numeric check never changes its outcome. */
  lemma PureNumericHasText(v: Option<string>)
    ensures IsPureNumericString(v) ==> HasText(v)
  {
    if IsPureNumericString(v) {
      TrimEmptyIffBlank(v.value);
    }
  }

  /** Trimming does not change whether a text is pure numeric. */
  lemma PureNumericOfTrim(s: string)
    ensures IsPureNumericString(Some(Trim(s))) == IsPureNumericString(Some(s))
  {
    TrimOfTrimmed(Trim(s));
  }

  // ---------------------------------------------------------------------------------
  // `_isValidNumericInput`, `_validateFields`, `_getPayload`
  // ---------------------------------------------------------------------------------

  /** `_isValidNumericInput`: `""`, `null` and `undefined` are valid whatever `finite`
      says; any other text is valid when `Number(v)` is finite. */
  function IsValidNumericInput(v: Option<string>, finite: string -> bool): (r: bool)
    ensures v.None? || v == Some("") ==> r
    ensures !r ==> v.Some? && !finite(v.value)
  {
    v.None? || v.value == "" || finite(v.value)
  }

  /** Which fields `_validateFields` puts into the error state, and its result. */
  datatype Validation = Validation(
    nameError: bool, categoryError: bool, descriptionError: bool,
    priceError: bool, stockError: bool, ok: bool)

  /** The check each text field gets: it has text and is pure numeric. */
  predicate NumericText(v: Option<string>) {
    HasText(v) && IsPureNumericString(v)
  }

  /** The per-field check in the regular expression's own terms. */
  lemma NumericTextIffMatches(v: Option<string>)
    ensures NumericText(v) <==> v.Some? && MatchesNumeric(v.value)
  {
    PureNumericHasText(v);
    if v.Some? {
      PureNumericIffMatches(v.value);
    }
  }

  /** `_validateFields`. Each text field is in error exactly when the whole of it reads
      as a signed decimal number, each number field exactly when it holds a non-empty
      text that is not a finite number; the result is true exactly when no field is in
      error. The checks are independent: every one runs whatever the others found. */
  function ValidateFields(f: Form, finite: string -> bool): (v: Validation)
    ensures v.nameError <==> f.name.Some? && MatchesNumeric(f.name.value)
    ensures v.categoryError <==> f.category.Some? && MatchesNumeric(f.category.value)
    ensures v.descriptionError <==> f.description.Some? && MatchesNumeric(f.description.value)
    ensures v.priceError <==> f.price.Some? && f.price.value != "" && !finite(f.price.value)
    ensures v.stockError <==> f.stock.Some? && f.stock.value != "" && !finite(f.stock.value)
    ensures v.ok <==> !(v.nameError || v.categoryError || v.descriptionError || v.priceError || v.stockError)
  {
    NumericTextIffMatches(f.name);
    NumericTextIffMatches(f.category);
    NumericTextIffMatches(f.description);
    var nameError := NumericText(f.name);
    var categoryError := NumericText(f.category);
    var descriptionError := NumericText(f.description);
    var priceError := !IsValidNumericInput(f.price, finite);
    var stockError := !IsValidNumericInput(f.stock, finite);
    Validation(nameError, categoryError, descriptionError, priceError, stockError,
               !nameError && !categoryError && !descriptionError && !priceError && !stockError)
  }

  /** The object `_getPayload` returns. `price` and `stock` carry the text `Number`
      converts, or `None` for `null`. */
  datatype Payload = Payload(
    name: string,
    description: string,
    category: string,
    price: Option<string>,
    stock: Option<string>,
    supplierUuid: Option<string>,
    test: string)

  /** `toNum` followed by the `Number.isFinite` guard: `null` for an empty or missing
      value and for one that is not a finite number. */
  function PayloadNumber(v: Option<string>, finite: string -> bool): (r: Option<string>)
    ensures r.Some? <==> v.Some? && v.value != "" && finite(v.value)
    ensures r.Some? ==> r == v
  {
    if v.None? || v.value == "" then None
    else if finite(v.value) then v
    else None
  }

  /** `_getPayload`: name, category and test trimmed, each the entered text without the
      whitespace around it (missing read as `""`), the
      description passed through untrimmed, and a falsy supplier key turned into `null`. */
  function GetPayload(f: Form, finite: string -> bool): (p: Payload)
    ensures IsTrimOf(p.name, f.name.GetOr("")) && IsTrimOf(p.category, f.category.GetOr(""))
            && IsTrimOf(p.test, f.test.GetOr(""))
    ensures p.name == "" <==> !HasText(f.name)
    ensures p.category == "" <==> !HasText(f.category)
    ensures p.test == "" <==> !HasText(f.test)
    ensures p.description == f.description.GetOr("")
    ensures p.supplierUuid.Some? <==> f.supplierUuid.Some? && f.supplierUuid.value != ""
    ensures p.supplierUuid.Some? ==> p.supplierUuid == f.supplierUuid
    ensures p.price == PayloadNumber(f.price, finite) && p.stock == PayloadNumber(f.stock, finite)
  {
    TrimEmptyIffBlank(f.name.GetOr(""));
    TrimEmptyIffBlank(f.category.GetOr(""));
    TrimEmptyIffBlank(f.test.GetOr(""));
    TrimIsTrimOf(f.name.GetOr(""));
    TrimIsTrimOf(f.category.GetOr(""));
    TrimIsTrimOf(f.test.GetOr(""));
    Payload(
      Trim(f.name.GetOr("")),
      f.description.GetOr(""),
      Trim(f.category.GetOr("")),
      PayloadNumber(f.price, finite),
      PayloadNumber(f.stock, finite),
      if f.supplierUuid.None? || f.supplierUuid.value == "" then None else f.supplierUuid,
      Trim(f.test.GetOr("")))
  }

  // ---------------------------------------------------------------------------------
  // `onSave`
  // ---------------------------------------------------------------------------------

  /** Where `onSave` stops: the first failing check, or the create it sends. */
  datatype SaveOutcome =
    | FieldsInvalid
    | NameRequired
    | SupplierRequired
    | Create(payload: Payload)

  /** `onSave` after the model check: validation first, then a blank name, then a
      missing supplier; only a form passing all three reaches the create. */
  function OnSave(f: Form, finite: string -> bool): (o: SaveOutcome)
    ensures o.FieldsInvalid? <==> !ValidateFields(f, finite).ok
    ensures o.NameRequired? <==> ValidateFields(f, finite).ok && !HasText(f.name)
    ensures o.SupplierRequired? <==>
              && ValidateFields(f, finite).ok && HasText(f.name)
              && (f.supplierUuid.None? || f.supplierUuid.value == "")
    ensures o.Create? ==> o.payload == GetPayload(f, finite)
  {
    if !ValidateFields(f, finite).ok then FieldsInvalid
    else
      var payload := GetPayload(f, finite);
      TrimEmptyIffBlank(payload.name);
      if !HasText(Some(payload.name)) then NameRequired
      else if payload.supplierUuid.None? then SupplierRequired
      else Create(payload)
  }

  /** A product that is sent has a trimmed non-empty name that is not a number, a
      category that is not a number, and a supplier key. */
  lemma CreatedProductIsValid(f: Form, finite: string -> bool)
    requires OnSave(f, finite).Create?
    ensures var p := OnSave(f, finite).payload;
            && p.name != "" && Trimmed(p.name) && !MatchesNumeric(p.name)
            && !MatchesNumeric(p.category)
            && p.supplierUuid.Some? && p.supplierUuid.value != ""
  {
    var p := OnSave(f, finite).payload;
    PureNumericOfTrim(f.name.GetOr(""));
    PureNumericOfTrim(f.category.GetOr(""));
    PureNumericIffMatches(p.name);
    PureNumericIffMatches(p.category);
    PureNumericIffMatches(f.category.GetOr(""));
  }

  // ---------------------------------------------------------------------------------
  // `_resetForm` and `_recalcClearEnabled`
  // ---------------------------------------------------------------------------------

  /** The form together with the `ui>/clearEnabled` flag. */
  datatype View = View(form: Form, clearEnabled: bool)

  /** `_resetForm`: the initial values and a disabled Clear button. */
  const ResetView: View := View(InitialForm, false)

  /** The number fields count as values only when they hold a non-empty finite number. */
  predicate NumberEntered(v: Option<string>, finite: string -> bool) {
    v.Some? && v.value != "" && finite(v.value)
  }

  /** `_recalcClearEnabled` as written. A `null` price or stock is `!== ""` and valid
      numeric input, so it counts as a value: the flag is on when a text field has text,
      a number field holds a finite number or is missing, or a supplier is chosen. */
  function RecalcClearEnabled(f: Form, finite: string -> bool): (r: bool)
    ensures r <==>
              || HasText(f.name) || HasText(f.description) || HasText(f.category)
              || f.price.None? || NumberEntered(f.price, finite)
              || f.stock.None? || NumberEntered(f.stock, finite)
              || (f.supplierUuid.Some? && f.supplierUuid.value != "")
  {
    || HasText(f.name) || HasText(f.description) || HasText(f.category)
    || (f.price != Some("") && IsValidNumericInput(f.price, finite))
    || (f.stock != Some("") && IsValidNumericInput(f.stock, finite))
    || (f.supplierUuid.Some? && f.supplierUuid.value != "")
  }

  /** The as-written flag is on for the initial form, whatever `finite` says, while
      `_resetForm` sets it off: the first field change on a freshly reset form turns the
      Clear button on even though nothing was entered. */
  lemma ClearEnabledOnEmptyForm(finite: string -> bool)
    ensures RecalcClearEnabled(ResetView.form, finite)
    ensures !ResetView.clearEnabled
  {
  }

  /** The as-written flag is on for every form whose price or stock is `null` or
      `undefined`, whatever else it holds. */
  lemma ClearEnabledWhenNumberMissing(f: Form, finite: string -> bool)
    ensures f.price.None? || f.stock.None? ==> RecalcClearEnabled(f, finite)
  {
  }

  /** A missing number field read as the empty text the user sees. */
  function ShownNumbers(f: Form): Form {
    f.(price := Some(f.price.GetOr("")), stock := Some(f.stock.GetOr("")))
  }

  /** `_recalcClearEnabled` as evidently intended: on exactly when some field holds a
      value the user entered. It is the as-written flag once a `null` price or stock is
      read as `""`. */
  function HasValue(f: Form, finite: string -> bool): (r: bool)
    ensures r == RecalcClearEnabled(ShownNumbers(f), finite)
    ensures r ==> RecalcClearEnabled(f, finite)
    ensures !r ==> !HasText(f.name) && !HasText(f.description) && !HasText(f.category)
  {
    || HasText(f.name) || HasText(f.description) || HasText(f.category)
    || NumberEntered(f.price, finite) || NumberEntered(f.stock, finite)
    || (f.supplierUuid.Some? && f.supplierUuid.value != "")
  }

  /** The intended flag agrees with `_resetForm`: off on the initial form. */
  lemma HasValueAgreesWithReset(finite: string -> bool)
    ensures HasValue(ResetView.form, finite) == ResetView.clearEnabled
  {
  }

  /** The two readings differ only through `null` number fields: on a form whose price
      and stock are present they agree. */
  lemma HasValueMatchesWhenNumbersPresent(f: Form, finite: string -> bool)
    requires f.price.Some? && f.stock.Some?
    ensures HasValue(f, finite) == RecalcClearEnabled(f, finite)
  {
  }
}
