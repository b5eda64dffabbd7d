/**
 * The new-customer page (app/customers/add/page.js): its form state, the single-field update
 * of `handleChange`, and the record `handleSubmit` hands to the database.
 */
module AddCustomer {
  import opened Wrappers
  import opened Customers
  import Discount
  import CsvExport
  import Rows

  /** `formData`: the four text inputs, always strings. */
  datatype CustomerForm = CustomerForm(name: string, kana: string, phone: string, email: string)

  /** The `name` attributes of the four inputs. */
  datatype FormField = Name | Kana | Phone | Email

  /** The initial `useState` value: every input empty. */
  const InitialForm: CustomerForm := CustomerForm("", "", "", "")

  function FieldValue(form: CustomerForm, f: FormField): string
  {
    match f
    case Name => form.name
    case Kana => form.kana
    case Phone => form.phone
    case Email => form.email
  }

  /** The change handler: the input named `f` takes the typed value, the others keep theirs. */
  function HandleChange(form: CustomerForm, f: FormField, v: string): (r: CustomerForm)
    ensures FieldValue(r, f) == v
    ensures forall g :: g != f ==> FieldValue(r, g) == FieldValue(form, g)
  {
    match f
    case Name => form.(name := v)
    case Kana => form.(kana := v)
    case Phone => form.(phone := v)
    case Email => form.(email := v)
  }

  /** One entry of a customer's visit history. */
  datatype VisitRecord = VisitRecord(date: string, note: string)

  /** The document passed to `addDoc`, without its clock-dependent `createdAt`. */
  datatype NewCustomer = NewCustomer(
    name: string, kana: string, phone: string, email: string,
    visitCount: nat, history: seq<VisitRecord>)

  /** The submitted record: the form's fields, the reading defaulted to empty, no visits and no history. */
  function NewCustomerRecord(form: CustomerForm): (r: NewCustomer)
    ensures r.visitCount == 0 && r.history == []
    ensures r.kana == form.kana
    ensures r.name == form.name && r.phone == form.phone && r.email == form.email
  {
    NewCustomer(form.name, if form.kana != "" then form.kana else "", form.phone, form.email, 0, [])
  }

  /** The stored record as the list page reads it back under the id the database assigned. */
  function Listed(id: string, rec: NewCustomer): (c: Customer)
    ensures c.kana.Some? && c.phone.Some?
  {
    Customer(id, rec.name, Some(rec.kana), Some(rec.phone), rec.visitCount)
  }

  /** A later change of the same field overrides the earlier one. */
  lemma ChangeTwice(form: CustomerForm, f: FormField, v: string, w: string)
    ensures HandleChange(HandleChange(form, f, v), f, w) == HandleChange(form, f, w)
  {
  }

  /** Changes to different fields do not interfere, whatever their order. */
  lemma ChangesCommute(form: CustomerForm, f: FormField, g: FormField, v: string, w: string)
    requires f != g
    ensures HandleChange(HandleChange(form, f, v), g, w) == HandleChange(HandleChange(form, g, w), f, v)
  {
  }

  /** Typing each input once fills the form with exactly those values. */
  lemma FillForm(name: string, kana: string, phone: string, email: string)
    ensures HandleChange(HandleChange(HandleChange(HandleChange(InitialForm, Name, name), Kana, kana),
              Phone, phone), Email, email) == CustomerForm(name, kana, phone, email)
  {
  }

  /**
   * What the list page shows for a customer created here: no discount badge yet, the row of its
   * reading, and a CSV line whose kana column is the typed reading (never `undefined`) and
   * whose count is 0.
   */
  lemma NewCustomerOnList(id: string, form: CustomerForm)
    ensures !Discount.IsNextDiscount(Listed(id, NewCustomerRecord(form)).visitCount)
    ensures Rows.GetRow(Listed(id, NewCustomerRecord(form)).kana) == Rows.GetRow(Some(form.kana))
    ensures CsvExport.RowValues(Listed(id, NewCustomerRecord(form)))
         == [id, form.name, form.kana, form.phone, "0"]
  {
  }
}
