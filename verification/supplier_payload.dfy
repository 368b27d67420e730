/**
 * The supplier record both creation paths send to the backend: the CSV import's loop
 * (app/webapp/controller/Suppliers.controller.js) and the create form's `_getPayload`
 * (app/webapp/controller/Create-supplier.controller.js) build it the same way.
 */
module SupplierPayload {
  import opened Wrappers
  import opened JsStrings

  datatype Supplier = Supplier(name: string, email: string, tel: string, address: string, description: string)

  /** `name`, `email` and `tel` are `(v || "").trim()`: the given text with the
      whitespace around it cut off, empty exactly when it has no text. `address` and
      `description` are `v || ""`, passed through untrimmed. */
  function BuildPayload(name: Option<string>, email: Option<string>, tel: Option<string>,
                        address: Option<string>, description: Option<string>): (p: Supplier)
    ensures IsTrimOf(p.name, name.GetOr("")) && IsTrimOf(p.email, email.GetOr(""))
            && IsTrimOf(p.tel, tel.GetOr(""))
    ensures HasText(name) <==> p.name != ""
    ensures HasText(email) <==> p.email != ""
    ensures HasText(tel) <==> p.tel != ""
    ensures p.address == address.GetOr("") && p.description == description.GetOr("")
  {
    TrimEmptyIffBlank(name.GetOr(""));
    TrimEmptyIffBlank(email.GetOr(""));
    TrimEmptyIffBlank(tel.GetOr(""));
    TrimIsTrimOf(name.GetOr(""));
    TrimIsTrimOf(email.GetOr(""));
    TrimIsTrimOf(tel.GetOr(""));
    Supplier(Trim(name.GetOr("")), Trim(email.GetOr("")), Trim(tel.GetOr("")),
             address.GetOr(""), description.GetOr(""))
  }
}
