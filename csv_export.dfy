/**
 * The "all customers" CSV export `handleExportAll` (app/page.js:66-84): a header line and one
 * line per customer of the full (unfiltered) list, joined by newlines, written as UTF-8 after
 * a byte-order mark. The download itself is not part of this model.
 */
module CsvExport {
  import opened Wrappers
  import opened Text
  import opened Utf8
  import opened Customers
  import opened CsvRead

  /** The column titles of the header line. */
  const Headers: seq<string> := ["お客様ID", "お名前", "フリガナ", "電話番号", "来店回数"]

  /** The header titles joined by commas. */
  function HeaderLine(): string
  {
    Join(Headers, ',')
  }

  /** `${c.kana}`: a missing field is printed as the word `undefined`. */
  function KanaText(kana: Option<string>): string
  {
    match kana
    case None => "undefined"
    case Some(k) => k
  }

  /** The phone column: a missing number is printed as nothing. */
  function PhoneText(phone: Option<string>): string
  {
    match phone
    case None => ""
    case Some(p) => p
  }

  /** The five fields of one data line as the template literal writes them: id and count bare, the three texts in quotes. */
  function RowFields(c: Customer): seq<string>
  {
    [c.id, Quote(c.name), Quote(KanaText(c.kana)), Quote(PhoneText(c.phone)), NatToDecimal(c.visitCount)]
  }

  /** The template literal of one data line: its five fields separated by commas. */
  function CsvRow(c: Customer): string
  {
    Join(RowFields(c), ',')
  }

  /** One line per customer, in input order. */
  function CsvRows(cs: seq<Customer>): (r: seq<string>)
    ensures |r| == |cs|
    ensures forall i :: 0 <= i < |cs| ==> r[i] == CsvRow(cs[i])
    decreases |cs|
  {
    if cs == [] then [] else [CsvRow(cs[0])] + CsvRows(cs[1..])
  }

  /** The header line followed by the customer lines. */
  function CsvLines(cs: seq<Customer>): seq<string>
  {
    [HeaderLine()] + CsvRows(cs)
  }

  /** `csvContent`. */
  function CsvText(cs: seq<Customer>): string
  {
    Join(CsvLines(cs), '\n')
  }

  const Bom: seq<Byte> := [0xEF, 0xBB, 0xBF]

  /** The bytes of the `Blob`; None when the list is empty (the alert path, nothing is produced). */
  function ExportAll(cs: seq<Customer>): Option<seq<Byte>>
  {
    if |cs| == 0 then None else Some(Bom + Encode(CsvText(cs)))
  }

  // ------------------------------------------------------------ properties

  /** The text fields of `c`, as the line prints them, hold no newline. */
  predicate OneLine(c: Customer)
  {
    '\n' !in c.id && '\n' !in c.name && '\n' !in KanaText(c.kana) && '\n' !in PhoneText(c.phone)
  }

  /** The text fields of `c` survive the unescaped quoting: no quotes anywhere, no comma in the id. */
  predicate QuoteFree(c: Customer)
  {
    && ',' !in c.id && '"' !in c.id
    && '"' !in c.name && '"' !in KanaText(c.kana) && '"' !in PhoneText(c.phone)
  }

  /** The values a data line is meant to carry, column by column. */
  function RowValues(c: Customer): seq<string>
  {
    [c.id, c.name, KanaText(c.kana), PhoneText(c.phone), NatToDecimal(c.visitCount)]
  }

  /** The header line is the five titles joined by commas. */
  lemma HeaderLineText()
    ensures HeaderLine() == "お客様ID,お名前,フリガナ,電話番号,来店回数"
  {
    assert Join(Headers[4..], ',') == "来店回数";
    assert Join(Headers[3..], ',') == "電話番号,来店回数";
    assert Join(Headers[2..], ',') == "フリガナ,電話番号,来店回数";
    assert Join(Headers[1..], ',') == "お名前,フリガナ,電話番号,来店回数";
  }

  /** The header line holds no newline and no quote. */
  lemma HeaderLineClean()
    ensures '\n' !in HeaderLine() && '"' !in HeaderLine()
  {
    JoinExcludes(Headers, ',', '\n');
    JoinExcludes(Headers, ',', '"');
  }

  /** An empty customer list exports nothing; any other list exports the BOM and the encoded text. */
  lemma ExportShape(cs: seq<Customer>)
    ensures ExportAll(cs).None? <==> |cs| == 0
    ensures |cs| > 0 ==>
              && |ExportAll(cs).value| >= 3
              && ExportAll(cs).value[..3] == [0xEF, 0xBB, 0xBF]
              && Decode(ExportAll(cs).value[3..]) == Some(CsvText(cs))
  {
    if |cs| > 0 {
      var b := ExportAll(cs).value;
      assert b[3..] == Encode(CsvText(cs));
      DecodeEncode(CsvText(cs));
    }
  }

  lemma RowOneLine(c: Customer)
    requires OneLine(c)
    ensures '\n' !in CsvRow(c)
  {
    var fields := RowFields(c);
    assert '\n' !in NatToDecimal(c.visitCount);
    forall j | 0 <= j < |fields|
      ensures '\n' !in fields[j]
    {
    }
    JoinExcludes(fields, ',', '\n');
  }

  /**
   * When no field holds a newline, the text splits into exactly `|cs| + 1` lines: the header
   * and then the line of each customer, in input order.
   */
  lemma LinesOfText(cs: seq<Customer>)
    requires forall i :: 0 <= i < |cs| ==> OneLine(cs[i])
    ensures Split(CsvText(cs), '\n') == CsvLines(cs)
    ensures |Split(CsvText(cs), '\n')| == |cs| + 1
  {
    var lines := CsvLines(cs);
    HeaderLineClean();
    forall j | 0 <= j < |lines|
      ensures '\n' !in lines[j]
    {
      if j > 0 { RowOneLine(cs[j - 1]); }
    }
    SplitJoin(lines, '\n');
  }

  /** The text never ends with a newline: it ends with the header or with a visit count digit. */
  lemma NoTrailingNewline(cs: seq<Customer>)
    ensures |CsvText(cs)| > 0 && CsvText(cs)[|CsvText(cs)| - 1] != '\n'
  {
    var lines := CsvLines(cs);
    if |cs| == 0 {
      assert Join(Headers[4..], ',') == "来店回数";
      JoinLast(Headers, ',');
    } else {
      var fields := RowFields(cs[|cs| - 1]);
      var num := fields[4];
      JoinLast(fields, ',');
      assert IsDigit(num[|num| - 1]);
    }
    JoinLast(lines, '\n');
  }

  /** The header line reads back as the five titles. */
  lemma HeaderReadsBack()
    ensures ParseRecord(HeaderLine()) == Some(Headers)
  {
    forall j | 0 <= j < |Headers|
      ensures Encodes(Headers[j], Headers[j])
    {
      PlainEncodes(Headers[j]);
    }
    ParseJoined(Headers, Headers);
  }

  /** A data line spelled out: the id, the three quoted texts and the count, separated by commas. */
  lemma RowText(c: Customer)
    ensures CsvRow(c) == c.id + "," + Quote(c.name) + "," + Quote(KanaText(c.kana)) + ","
                         + Quote(PhoneText(c.phone)) + "," + NatToDecimal(c.visitCount)
  {
    var f := RowFields(c);
    assert Join(f[4..], ',') == f[4];
    assert Join(f[3..], ',') == f[3] + "," + f[4];
    assert Join(f[2..], ',') == f[2] + "," + f[3] + "," + f[4];
    assert Join(f[1..], ',') == f[1] + "," + f[2] + "," + f[3] + "," + f[4];
  }

  /** Without quotes in the texts, a data line reads back as the customer's five values. */
  lemma RowReadsBack(c: Customer)
    requires QuoteFree(c)
    ensures ParseRecord(CsvRow(c)) == Some(RowValues(c))
  {
    var num := NatToDecimal(c.visitCount);
    var encs := [c.id, Quote(c.name), Quote(KanaText(c.kana)), Quote(PhoneText(c.phone)), num];
    PlainEncodes(c.id);
    QuoteEncodes(c.name);
    QuoteEncodes(KanaText(c.kana));
    QuoteEncodes(PhoneText(c.phone));
    assert ',' !in num && '"' !in num;
    PlainEncodes(num);
    ParseJoined(encs, RowValues(c));
  }

  /** The exported text, read back line by line, gives the header and every customer's values in order. */
  lemma TextReadsBack(cs: seq<Customer>)
    requires forall i :: 0 <= i < |cs| ==> OneLine(cs[i]) && QuoteFree(cs[i])
    ensures ParseCsv(CsvText(cs)) == Some([Headers] + AllRowValues(cs))
  {
    LinesOfText(cs);
    HeaderReadsBack();
    RowsReadBack(cs);
    assert CsvLines(cs)[1..] == CsvRows(cs);
  }

  /** `RowValues` of every customer, in order. */
  function AllRowValues(cs: seq<Customer>): (r: seq<seq<string>>)
    ensures |r| == |cs|
    ensures forall i :: 0 <= i < |cs| ==> r[i] == RowValues(cs[i])
    decreases |cs|
  {
    if cs == [] then [] else [RowValues(cs[0])] + AllRowValues(cs[1..])
  }

  lemma {:induction false} RowsReadBack(cs: seq<Customer>)
    requires forall i :: 0 <= i < |cs| ==> QuoteFree(cs[i])
    ensures ParseLines(CsvRows(cs)) == Some(AllRowValues(cs))
    decreases |cs|
  {
    if cs != [] {
      RowReadsBack(cs[0]);
      RowsReadBack(cs[1..]);
      assert CsvRows(cs)[1..] == CsvRows(cs[1..]);
    }
  }

  /**
   * A quote inside a name that is followed by anything but a quote or a comma makes the line
   * unreadable: the list page does not double the quote, so it ends the quoted field early.
   */
  lemma StrayQuoteBreaksRow(c: Customer, a: string, b: string)
    requires ',' !in c.id && '"' !in c.id
    requires c.name == a + "\"" + b && '"' !in a && b != [] && b[0] != '"' && b[0] != ','
    ensures ParseRecord(CsvRow(c)) == None
  {
    var fields := RowFields(c);
    var tail := Join(fields[1..], ',');
    var after := Join(fields[2..], ',');
    assert CsvRow(c) == c.id + ([','] + tail);
    PlainEncodes(c.id);
    assert ParseField(c.id + ([','] + tail)) == Some((c.id, [','] + tail));
    assert ([','] + tail)[1..] == tail;
    // The quoted name ends at its inner quote; the reader then meets `b` where a comma is due.
    var rest := b + "\"" + ([','] + after);
    assert tail == Quote(c.name) + [','] + after;
    assert tail[0] == '"';
    assert tail[1..] == a + "\"" + rest;
    QuotedFieldOf(a, rest);
    assert ParseField(tail) == Some((a, rest));
  }

  /** The sample name `a"b`: its line cannot be read back. */
  lemma UnescapedQuoteBreaksRow()
    ensures ParseRecord(CsvRow(Customer("c1", "a\"b", Some("カ"), None, 3))) == None
  {
    assert "a\"b" == "a" + "\"" + "b";
    StrayQuoteBreaksRow(Customer("c1", "a\"b", Some("カ"), None, 3), "a", "b");
  }

  /** A comma inside a quoted name is harmless: the line still reads back. */
  lemma CommaInNameReadsBack()
    ensures ParseRecord(CsvRow(Customer("c1", "山田, 花子", Some("ヤマダ"), Some("090"), 9)))
         == Some(["c1", "山田, 花子", "ヤマダ", "090", "9"])
  {
    RowReadsBack(Customer("c1", "山田, 花子", Some("ヤマダ"), Some("090"), 9));
  }
}
