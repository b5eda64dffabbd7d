/**
 * A customer document as the list page sees it: the document id joined with the stored
 * fields (app/page.js:16-19). Only the fields the list page reads are kept.
 */
module Customers {
  import opened Wrappers

  datatype Customer = Customer(
    id: string,
    name: string,
    kana: Option<string>,      // None: the field is missing from the document
    phone: Option<string>,     // None: the field is missing from the document
    visitCount: nat)

  /** JavaScript truthiness of `c.kana`: present and not the empty string. */
  predicate HasKana(c: Customer)
  {
    c.kana.Some? && c.kana.value != ""
  }

  /** The reading, or the empty string when it is missing: the key the list page sorts each row by. */
  function SortKey(c: Customer): (k: string)
    ensures HasKana(c) ==> k == c.kana.value
    ensures !HasKana(c) ==> k == ""
  {
    if HasKana(c) then c.kana.value else ""
  }
}
