# Salon customer list: a Dafny model

This project models the two pages of a small salon's customer-card application that hold its
logic:

- **The customer list** (`app/page.js`). It filters the customers by a search term that must
  occur in the name or the katakana reading. It sorts each match into one of eleven
  phonetic rows (あ行 … わ行, plus 他 for everything else) by the first character of the
  reading. Each row is sorted by reading under Japanese collation, and only the non-empty
  rows are shown, in their declared order. A card shows a discount badge when the coming visit
  is a multiple of ten. "Export all" writes every customer as a CSV file: a UTF-8 byte-order mark,
  a header line, then one comma-separated line per customer.
- **The new-customer form** (`app/customers/add/page.js`). It keeps four text inputs, updates
  one field per change event, and submits a record that starts with no visits and no history.

## Structure

| file | module | what it holds |
|---|---|---|
| `wrappers.dfy` | `Wrappers` | `Option` |
| `customers.dfy` | `Customers` | the customer record as the list page reads it |
| `text.dfy` | `Text` | substring search, join/split on a one-character separator, decimal numerals |
| `utf8.dfy` | `Utf8` | UTF-8 writer and an independent reader |
| `search.dfy` | `Search` | the search filter |
| `rows.dfy` | `Rows` | the row keys and the row classifier |
| `sorting.dfy` | `Sorting` | the stable per-row sort over an abstract collation |
| `grouping.dfy` | `Grouping` | the bucket-filling loop, the per-row sort loop, the rendered sections |
| `list_page.dfy` | `ListPage` | one render pass of the list, end to end |
| `discount.dfy` | `Discount` | the discount-badge test |
| `csv_read.dfy` | `CsvRead` | a CSV reader that treats `""` inside quotes as a quote |
| `csv_export.dfy` | `CsvExport` | the CSV text and bytes of the export |
| `add_customer.dfy` | `AddCustomer` | the form state, its change handler and the submitted record |

Modelling choices:

- Strings are sequences of Unicode scalar values.
- A customer's reading and phone number may be absent (`Option`).
  - A missing or empty reading counts as no reading, exactly as JavaScript truthiness decides.
  - In the CSV, a missing reading is printed as `undefined` and a missing phone as nothing, as the
    template literal does.
- The visit count is a natural number.
- The grouping and the per-row sort are the two loops of the page:
  - each is a method over a map from row label to list;
  - each is proved equal to a specification function (`BucketOf`, `SortedGroups`);
  - the properties the page relies on are lemmas about those functions.
- The collation `localeCompare(…, 'ja')` is a parameter: any comparator that gives a total
  preorder.
  - The library sort is stable, so the sort is modelled as a stable insertion sort.
  - `Sorting.StableSortUnique` shows that any stable sorted result equals it, so the choice of
    algorithm does not matter.
- The exported bytes are the byte-order mark `EF BB BF` followed by the UTF-8 encoding of the
  text, which is how a `Blob` encodes a string part.

Two facts about the code shape what the model can promise:

- Data lines are written without escaping `"`. `CsvExport.UnescapedQuoteBreaksRow` and
  `CsvExport.StrayQuoteBreaksRow` show what that does to a name holding a quote. The name,
  reading and phone columns are quoted.
- The form raises no error for an empty name; only the HTML `required` attribute guards it.

## Model

| member | source | states |
|---|---|---|
| Search.FilterCustomers | app/page.js:30-32 | the search keeps only customers of the input that match the term, and is no longer than the input |
| Search.FilterPositions | app/page.js:30-32 | the result lists the input's customers at exactly the matching positions, in input order |
| Search.FilterMultiplicity | app/page.js:30-32 | a matching customer is kept as often as it occurs in the input, a non-matching one never |
| Search.FilterMembership | app/page.js:30-32 | a customer is in the result if and only if it is in the input and matches |
| Search.EmptyTermKeepsAll | app/page.js:30-32 | the empty search term keeps the whole list unchanged |
| Text.ContainsIff | app/page.js:31 | the substring test succeeds exactly when the term occurs at some index |
| Text.ContainsEmpty | app/page.js:31 | every text contains the empty term |
| Rows.RowKeysDistinct | app/page.js:35-38 | the eleven row labels are pairwise different |
| Rows.RowOfChar | app/page.js:43-53 | every character gets one of the eleven declared row labels |
| Rows.GetRow | app/page.js:40-54 | the row is a declared label; a missing or empty reading goes to 他; otherwise the first character decides |
| Rows.ClassesDisjoint | app/page.js:43-52 | no character passes two of the ten character-class tests, so the order of the tests does not matter |
| Rows.ClassBlock | app/page.js:43-52 | each class, plain and voiced ranges together, is one contiguous block of katakana, and the blocks follow the row order |
| Rows.RowOfCharBlock | app/page.js:43-53 | the test chain gives row i exactly to the characters of block i |
| Rows.RowOfCharByTable | app/page.js:43-53 | the label is row i exactly when class test i passes, and 他 exactly when none passes |
| Rows.FirstCharDecides | app/page.js:41-42 | two readings with the same first character go to the same row |
| Rows.Examples | app/page.js:40-54 | voiced kana join their plain row; hiragana, Latin letters, ヴ, small ァ, "" and a missing reading go to 他 |
| Grouping.GroupByRow | app/page.js:56-59 | the loop yields exactly the eleven row keys, each holding the filtered customers of that row in filtered order |
| Grouping.ExactlyOneBucket | app/page.js:56-59 | a filtered customer is in a bucket if and only if that bucket is its row |
| Grouping.NothingAdded | app/page.js:56-59 | no customer outside the filtered list reaches any bucket |
| Grouping.BucketMultiplicity | app/page.js:56-59 | a customer appears in its row's bucket as often as it was filtered, and in no other |
| Grouping.BucketSizesSum | app/page.js:56-59 | the bucket sizes add up to the number of filtered customers |
| Grouping.SortedGroups | app/page.js:62-64 | sorting keeps every row key |
| Grouping.SortEachRow | app/page.js:62-64 | the loop over the row keys replaces every bucket by its sorted version |
| Grouping.SectionsSizeIsTotal | app/page.js:122-123 | the rendered sections hold as many cards as all the buckets together |
| Grouping.SectionsNonEmpty | app/page.js:122-123 | every rendered section is a non-empty bucket shown under its own key |
| Grouping.SectionsComplete | app/page.js:122-123 | every non-empty bucket is rendered |
| Grouping.SectionsInKeyOrder | app/page.js:122-123 | sections appear in the declared order of the row keys |
| Sorting.SortByKana | app/page.js:62-64 | the sort is a permutation of its input |
| Sorting.SortByKanaSorted | app/page.js:62-64 | under a total preorder, the result is ordered by reading |
| Sorting.SortByKanaStable | app/page.js:62-64 | customers with equivalent readings keep their input order |
| Sorting.StableSortUnique | app/page.js:62-64 | any ordered arrangement that keeps equivalent customers in input order is the sorted result |
| ListPage.ListView | app/page.js:30-64 | one pass of filter, grouping loop, sort loop and section selection yields the page's sections |
| ListPage.ViewSize | app/page.js:56-64 | the sections together show exactly as many cards as the search keeps |
| ListPage.ViewSections | app/page.js:122-123 | each section is a non-empty row, sorted by reading, holding each matching customer of that row as often as it appears in the data |
| ListPage.ViewComplete | app/page.js:56-59 | every customer the search keeps is shown in the section of its own row |
| Discount.NextDiscountIff | app/page.js:137 | the badge shows exactly when the visit count ends in 9 |
| Discount.DiscountEveryTenth | app/page.js:137 | the badge shows at count 10k+9 and at none of the nine counts after it |
| CsvExport.HeaderLineText | app/page.js:73-77 | the header line is the five titles separated by commas |
| CsvExport.HeaderLineClean | app/page.js:73-77 | the header line holds no newline and no quote |
| CsvExport.HeaderReadsBack | app/page.js:73-77 | the header line parses back as the five titles |
| CsvExport.CsvRows | app/page.js:78-80 | one data line per customer, in input order |
| CsvExport.RowText | app/page.js:79 | a data line is the id, the quoted name, reading and phone, and the count, separated by commas |
| CsvExport.RowOneLine | app/page.js:79 | a customer whose texts hold no newline gives a one-line data line |
| CsvExport.RowReadsBack | app/page.js:79 | without quotes in the texts and commas in the id, a data line parses back as the customer's five values |
| CsvExport.StrayQuoteBreaksRow | app/page.js:79 | a name with a quote followed by any character other than a quote or a comma makes the line unreadable |
| CsvExport.UnescapedQuoteBreaksRow | app/page.js:79 | the sample name `a"b` gives an unreadable line |
| CsvExport.CommaInNameReadsBack | app/page.js:79 | a comma inside a quoted name does not split the column |
| CsvExport.RowsReadBack | app/page.js:78-80 | quote-free data lines parse back as every customer's values in order |
| CsvExport.LinesOfText | app/page.js:76-81 | when no field holds a newline, the text splits into the header and the data lines, one more line than customers |
| CsvExport.NoTrailingNewline | app/page.js:76-81 | the text never ends with a newline |
| CsvExport.TextReadsBack | app/page.js:76-81 | for quote-free, one-line fields, the whole text parses back as the header and every customer's values in order |
| CsvExport.ExportShape | app/page.js:66-84 | nothing is exported for an empty list; otherwise the bytes are the BOM followed by bytes that decode to exactly the CSV text |
| Utf8.DecodeEncode | app/page.js:84 | the UTF-8 encoding of any text decodes back to that text |
| Utf8.DecodeEncodeChar | app/page.js:84 | each character's encoding decodes to that character and uses up exactly its bytes |
| Text.NatToDecimal | app/page.js:79 | the printed count is a non-empty numeral of digits without a leading zero |
| Text.DecimalRoundTrip | app/page.js:79 | the printed count reads back as the count |
| Text.SplitJoin | app/page.js:81 | lines free of the separator, joined and split again, give back the lines |
| AddCustomer.HandleChange | app/customers/add/page.js:18-20 | the changed input takes the typed value and the other three keep theirs |
| AddCustomer.ChangeTwice | app/customers/add/page.js:18-20 | a later change of the same input overrides the earlier one |
| AddCustomer.ChangesCommute | app/customers/add/page.js:18-20 | changes to different inputs give the same form in either order |
| AddCustomer.FillForm | app/customers/add/page.js:10-20 | typing into each input of the empty form once yields exactly the typed values |
| AddCustomer.NewCustomerRecord | app/customers/add/page.js:26-32 | the record starts with count 0 and empty history, keeps the reading (empty when left blank) and copies name, phone and email |
| AddCustomer.NewCustomerOnList | app/customers/add/page.js:26-32 | a new customer shows no discount badge, falls in the row of its reading, and exports its reading (never `undefined`) and a count of 0 |

## Left out

- Firestore: reading the live collection, the `addDoc` call and its failure alert are not modelled. The record is modelled up to the point where it is handed over.
- The submitted record's `createdAt` is omitted because it reads the clock.
- React state handling, navigation, the loading flag and all styling are left out; only the data each page computes is modelled.
- The download step is left out: the object URL, the link element and the file name built from today's date. The model stops at the bytes of the `Blob`.
- The alert raised when there is nothing to export is represented only by `ExportAll` returning `None`.
- Japanese collation: the ICU ordering behind `localeCompare(…, 'ja')` is not modelled. The comparator is a parameter assumed to be a total preorder.
- `Sorting.SortByKana`: the library's sort algorithm is not visible. The model uses a stable insertion sort, and any stable sort gives the same result (`Sorting.StableSortUnique`).
- JavaScript strings are UTF-16; the model uses Unicode scalar values. The two differ only outside the Basic Multilingual Plane, which none of the katakana tests touch.
- Number formatting for counts of 10^21 and above (exponent notation) is not modelled; counts are printed as plain decimal.
- Fields that are `null` or hold non-string values are not modelled.
- A visit count that is not a natural number is not modelled.
- The HTML `required` attribute on the name input is browser behaviour and not part of the model.
- The rest of the repository is not part of this model: the customer detail page, visit history, the history export and the layout.
