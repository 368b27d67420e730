/**
 * The create-supplier form (app/webapp/controller/Create-supplier.controller.js): reset,
 * the `clearEnabled` flag, the payload, and the name/email/tel checks of `onSave`. The
 * backend create and the messages shown are outside the model.
 */
module SupplierForm {
  import opened Wrappers
  import opened JsStrings
  import opened SupplierPayload

  /** The `formValues` model. `None` is `undefined`. */
  datatype Form = Form(
    name: Option<string>,
    description: Option<string>,
    address: Option<string>,
    email: Option<string>,
    tel: Option<string>)

  /** `initFormValues`: five empty texts. */
  const InitialForm: Form := Form(Some(""), Some(""), Some(""), Some(""), Some(""))

  /** The form together with the `ui>/clearEnabled` flag. */
  datatype View = View(form: Form, clearEnabled: bool)

  /** `_resetForm`: the initial values and a disabled Clear button. */
  const ResetView: View := View(InitialForm, false)

  // ---------------------------------------------------------------------------------
  // `_recalcClearEnabled`
  // ---------------------------------------------------------------------------------

  /** A field that is missing or holds nothing but whitespace. */
  predicate Blank(v: Option<string>) {
    AllWhitespace(v.GetOr(""))
  }

  /** `_recalcClearEnabled`: on when any of the five fields has text, so off exactly when
      every field is missing or whitespace only. */
  function RecalcClearEnabled(f: Form): (r: bool)
    ensures !r <==> Blank(f.name) && Blank(f.description) && Blank(f.address) && Blank(f.email) && Blank(f.tel)
  {
    HasText(f.name) || HasText(f.description) || HasText(f.address) || HasText(f.email) || HasText(f.tel)
  }

  /** A field compared after trimming, missing read as `""`; it trims to `""` exactly
      when it has no text. */
  function TrimField(v: Option<string>): (r: Option<string>)
    ensures r == Some("") <==> !HasText(v)
  {
    TrimEmptyIffBlank(v.GetOr(""));
    Some(Trim(v.GetOr("")))
  }

  function TrimForm(f: Form): Form {
    Form(TrimField(f.name), TrimField(f.description), TrimField(f.address), TrimField(f.email), TrimField(f.tel))
  }

  /** The Clear button is off exactly when the form, trimmed, is the reset form. */
  lemma ClearDisabledIffBlank(f: Form)
    ensures !RecalcClearEnabled(f) <==> TrimForm(f) == InitialForm
  {
  }

  /** `_resetForm` leaves the flag where `_recalcClearEnabled` would put it. */
  lemma ResetAgreesWithRecalc()
    ensures RecalcClearEnabled(ResetView.form) == ResetView.clearEnabled
  {
    ClearDisabledIffBlank(ResetView.form);
  }

  // ---------------------------------------------------------------------------------
  // `_getPayload`
  // ---------------------------------------------------------------------------------

  /** `_getPayload`: name, email and tel trimmed (each the typed text without the
      whitespace around it), address and description passed through, missing values
      read as `""`. */
  function GetPayload(f: Form): (p: Supplier)
    ensures IsTrimOf(p.name, f.name.GetOr("")) && IsTrimOf(p.email, f.email.GetOr(""))
            && IsTrimOf(p.tel, f.tel.GetOr(""))
    ensures p.name == "" <==> !HasText(f.name)
    ensures p.email == "" <==> !HasText(f.email)
    ensures p.tel == "" <==> !HasText(f.tel)
    ensures p.address == f.address.GetOr("") && p.description == f.description.GetOr("")
  {
    BuildPayload(f.name, f.email, f.tel, f.address, f.description)
  }

  // ---------------------------------------------------------------------------------
  // The e-mail pattern /^[^\s@]+@[^\s@]+\.[^\s@]+$/
  // ---------------------------------------------------------------------------------

  /** `[^\s@]`. */
  predicate Plain(c: char) {
    !IsWhitespace(c) && c != '@'
  }

  predicate AllPlain(t: string) {
    forall m :: 0 <= m < |t| ==> Plain(t[m])
  }

  /** The position of the first `@`, or `|s|` when there is none. */
  function AtIndex(s: string): (n: nat)
    ensures n <= |s|
    ensures forall k :: 0 <= k < n ==> s[k] != '@'
    ensures n == |s| || s[n] == '@'
  {
    if |s| > 0 && s[0] != '@' then 1 + AtIndex(s[1..]) else 0
  }

  /** A domain: no whitespace or `@`, and a dot that is neither its first nor its last
      character. */
  predicate DomainOk(d: string) {
    AllPlain(d) && exists q :: 0 < q < |d| - 1 && d[q] == '.'
  }

  /** The address check read left to right: a non-empty local part up to the first `@`,
      free of whitespace, and a domain after it. */
  predicate LocalThenDomain(s: string) {
    var a := AtIndex(s);
    0 < a < |s| && AllPlain(s[..a]) && DomainOk(s[a + 1..])
  }

  /** The regular expression's own reading of `s`: local part `s[..a]`, `@` at `a`,
      `s[a + 1..d]`, `.` at `d`, `s[d + 1..]`, each of the three parts non-empty and free
      of whitespace and `@`. */
  predicate EmailSplit(s: string, a: int, d: int) {
    && 0 < a && a + 1 < d && d + 1 < |s|
    && s[a] == '@' && s[d] == '.'
    && AllPlain(s[..a]) && AllPlain(s[a + 1..d]) && AllPlain(s[d + 1..])
  }

  ghost predicate MatchesEmail(s: string) {
    exists a, d :: EmailSplit(s, a, d)
  }

  lemma LocalThenDomainMatches(s: string)
    requires LocalThenDomain(s)
    ensures MatchesEmail(s)
  {
    var a := AtIndex(s);
    var dom := s[a + 1..];
    var q :| 0 < q < |dom| - 1 && dom[q] == '.';
    var d := a + 1 + q;
    assert s[a + 1..d] == dom[..q];
    assert s[d + 1..] == dom[q + 1..];
    assert s[d] == dom[q];
    assert EmailSplit(s, a, d);
  }

  lemma MatchesLocalThenDomain(s: string, a: int, d: int)
    requires EmailSplit(s, a, d)
    ensures LocalThenDomain(s)
  {
    assert forall k :: 0 <= k < a ==> s[k] == s[..a][k];
    assert AtIndex(s) == a;
    var dom := s[a + 1..];
    forall m | 0 <= m < |dom| ensures Plain(dom[m]) {
      if a + 1 + m < d {
        assert dom[m] == s[a + 1..d][m];
      } else if a + 1 + m > d {
        assert dom[m] == s[d + 1..][m - (d - a)];
      } else {
        assert dom[m] == s[d];
      }
    }
    assert dom[d - a - 1] == '.';
  }

  /** The left-to-right reading accepts exactly what the regular expression matches. */
  lemma LocalThenDomainIffMatches(s: string)
    ensures LocalThenDomain(s) <==> MatchesEmail(s)
  {
    if LocalThenDomain(s) {
      LocalThenDomainMatches(s);
    }
    if MatchesEmail(s) {
      var a, d :| EmailSplit(s, a, d);
      MatchesLocalThenDomain(s, a, d);
    }
  }

  /** `/^[^\s@]+@[^\s@]+\.[^\s@]+$/.test(s)`, computed left to right: it accepts exactly
      the addresses the regular expression matches. */
  function EmailOk(s: string): (r: bool)
    ensures r <==> MatchesEmail(s)
  {
    LocalThenDomainIffMatches(s);
    LocalThenDomain(s)
  }

  // ---------------------------------------------------------------------------------
  // The telephone pattern /^[0-9+\s()-]+$/
  // ---------------------------------------------------------------------------------

  /** `[0-9+\s()-]`. */
  predicate TelChar(c: char) {
    IsDigit(c) || c == '+' || IsWhitespace(c) || c == '(' || c == ')' || c == '-'
  }

  predicate AllTel(t: string) {
    forall m :: 0 <= m < |t| ==> TelChar(t[m])
  }

  /** The telephone check: one or more allowed characters and nothing else. */
  predicate TelOk(s: string) {
    |s| > 0 && AllTel(s)
  }

  /** Whitespace is itself allowed, so checking the trimmed number is checking the
      number as typed: it passes exactly when the typed text has text and uses only the
      allowed characters. */
  lemma TelOfTrim(t: string)
    ensures TelOk(Trim(t)) <==> HasText(Some(t)) && AllTel(t)
  {
    var r := Trim(t);
    var i := LeadingSpace(t);
    TrimEmptyIffBlank(t);
    if TelOk(r) {
      forall m | 0 <= m < |t| ensures TelChar(t[m]) {
        if i <= m < i + |r| {
          assert t[m] == r[m - i];
        }
      }
    }
    if HasText(Some(t)) && AllTel(t) {
      forall m | 0 <= m < |r| ensures TelChar(r[m]) {
        assert r[m] == t[i + m];
      }
    }
  }

  // ---------------------------------------------------------------------------------
  // `onSave`
  // ---------------------------------------------------------------------------------

  /** Where `onSave` stops: the first failing check, or the create it sends. */
  datatype SaveOutcome =
    | NameRequired
    | EmailInvalid
    | TelInvalid
    | Create(payload: Supplier)

  /** `onSave` after the model check, on the trimmed payload: a blank name first, then
      an e-mail address that has text but does not match, then a telephone number that
      has text but does not match; only a form passing all three reaches the create. */
  function OnSave(f: Form): (o: SaveOutcome)
    ensures o.NameRequired? <==> !HasText(f.name)
    ensures o.EmailInvalid? <==>
              && HasText(f.name) && HasText(f.email)
              && !MatchesEmail(Trim(f.email.value))
    ensures o.TelInvalid? <==>
              && HasText(f.name)
              && (HasText(f.email) ==> MatchesEmail(Trim(f.email.value)))
              && HasText(f.tel) && !AllTel(f.tel.value)
    ensures o.Create? ==> o.payload == GetPayload(f)
  {
    var p := GetPayload(f);
    TrimEmptyIffBlank(p.name);
    TrimEmptyIffBlank(p.email);
    TrimEmptyIffBlank(p.tel);
    TrimOfTrimmed(p.name);
    TrimOfTrimmed(p.email);
    TrimOfTrimmed(p.tel);
    TelOfTrim(f.tel.GetOr(""));
    if !HasText(Some(p.name)) then NameRequired
    else if HasText(Some(p.email)) && !EmailOk(p.email) then EmailInvalid
    else if HasText(Some(p.tel)) && !TelOk(p.tel) then TelInvalid
    else Create(p)
  }

  /** A supplier that is sent has a trimmed non-empty name, an e-mail address that is
      empty or well formed, and a telephone number that is empty or made of allowed
      characters only. */
  lemma CreatedSupplierIsValid(f: Form)
    ensures OnSave(f).Create? ==>
              var p := OnSave(f).payload;
              && p.name != "" && Trimmed(p.name)
              && (p.email == "" || EmailOk(p.email))
              && (p.tel == "" || TelOk(p.tel))
  {
    TelOfTrim(f.tel.GetOr(""));
  }
}
