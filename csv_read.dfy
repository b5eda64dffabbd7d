/**
 * A reader for comma-separated records of the usual quoted form (a field is either plain,
 * up to the next comma, or enclosed in double quotes with `""` standing for one quote).
 * The export's lines are read back with it to state what they carry.
 */
module CsvRead {
  import opened Wrappers
  import opened Text

  /** Reads a quoted field after its opening quote; returns the contents and what follows the closing quote. */
  function QuotedField(s: string): (r: Option<(string, string)>)
    ensures r.Some? ==> |r.value.1| < |s|
    decreases |s|
  {
    if s == [] then None
    else if s[0] == '"' then
      if |s| > 1 && s[1] == '"' then
        match QuotedField(s[2..])
        case None => None
        case Some((f, rest)) => Some(("\"" + f, rest))
      else Some(("", s[1..]))
    else
      match QuotedField(s[1..])
      case None => None
      case Some((f, rest)) => Some(([s[0]] + f, rest))
  }

  /** Reads a plain field up to (not including) the next comma. */
  function PlainField(s: string): (r: (string, string))
    ensures |r.1| <= |s|
    decreases |s|
  {
    if s == [] || s[0] == ',' then ("", s)
    else
      var (f, rest) := PlainField(s[1..]);
      ([s[0]] + f, rest)
  }

  function ParseField(s: string): (r: Option<(string, string)>)
    ensures r.Some? ==> |r.value.1| <= |s|
  {
    if |s| > 0 && s[0] == '"' then QuotedField(s[1..]) else Some(PlainField(s))
  }

  /** Reads one line as a list of fields; None when a quoted field is malformed. */
  function ParseRecord(s: string): Option<seq<string>>
    decreases |s|
  {
    match ParseField(s)
    case None => None
    case Some((f, rest)) =>
      if rest == [] then Some([f])
      else if rest[0] == ',' then
        match ParseRecord(rest[1..])
        case None => None
        case Some(fs) => Some([f] + fs)
      else None
  }

  /** Reads every line of a text. */
  function ParseLines(lines: seq<string>): Option<seq<seq<string>>>
    decreases |lines|
  {
    if lines == [] then Some([])
    else
      match ParseRecord(lines[0])
      case None => None
      case Some(fs) =>
        match ParseLines(lines[1..])
        case None => None
        case Some(rest) => Some([fs] + rest)
  }

  /** Reads a text of newline-separated records. */
  function ParseCsv(text: string): Option<seq<seq<string>>>
  {
    ParseLines(Split(text, '\n'))
  }

  /** What may follow a field: the end of the line or a comma. */
  predicate FieldEnd(rest: string)
  {
    rest == [] || rest[0] == ','
  }

  /** `enc` is read back as the field `f`, whatever field boundary follows. */
  ghost predicate Encodes(enc: string, f: string)
  {
    forall rest :: FieldEnd(rest) ==> ParseField(enc + rest) == Some((f, rest))
  }

  /** A field is written by enclosing it in quotes; the list page does no escaping. */
  function Quote(s: string): string
  {
    "\"" + s + "\""
  }

  /** The first quote ends a quoted field unless another quote follows it. */
  lemma {:induction false} QuotedFieldOf(x: string, rest: string)
    requires '"' !in x && (rest == [] || rest[0] != '"')
    ensures QuotedField(x + "\"" + rest) == Some((x, rest))
    decreases |x|
  {
    if x == [] {
      assert x + "\"" + rest == "\"" + rest;
      assert ("\"" + rest)[1..] == rest;
    } else {
      assert (x + "\"" + rest)[1..] == x[1..] + "\"" + rest;
      QuotedFieldOf(x[1..], rest);
      assert [x[0]] + x[1..] == x;
    }
  }

  lemma {:induction false} PlainFieldOf(x: string, rest: string)
    requires ',' !in x && FieldEnd(rest)
    ensures PlainField(x + rest) == (x, rest)
    decreases |x|
  {
    if x == [] {
      assert x + rest == rest;
    } else {
      assert (x + rest)[1..] == x[1..] + rest;
      PlainFieldOf(x[1..], rest);
      assert [x[0]] + x[1..] == x;
    }
  }

  /** A field free of commas and quotes is written as itself and read back unchanged. */
  lemma PlainEncodes(x: string)
    requires ',' !in x && '"' !in x
    ensures Encodes(x, x)
  {
    forall rest | FieldEnd(rest)
      ensures ParseField(x + rest) == Some((x, rest))
    {
      PlainFieldOf(x, rest);
      if x != [] {
        assert (x + rest)[0] == x[0];
      }
    }
  }

  /** A quoted field free of quotes is read back unchanged, commas included. */
  lemma QuoteEncodes(x: string)
    requires '"' !in x
    ensures Encodes(Quote(x), x)
  {
    forall rest | FieldEnd(rest)
      ensures ParseField(Quote(x) + rest) == Some((x, rest))
    {
      var s := Quote(x) + rest;
      assert s[1..] == x + "\"" + rest;
      QuotedFieldOf(x, rest);
      if QuotedField(s[1..]) != Some((x, rest)) {
        assert false;
      }
      if rest != [] {
        assert rest[0] == ',';
      }
    }
  }

  /** Fields joined by commas are read back one by one. */
  lemma {:induction false} ParseJoined(encs: seq<string>, fs: seq<string>)
    requires |encs| == |fs| >= 1
    requires forall j :: 0 <= j < |encs| ==> Encodes(encs[j], fs[j])
    ensures ParseRecord(Join(encs, ',')) == Some(fs)
    decreases |encs|
  {
    if |encs| == 1 {
      assert Encodes(encs[0], fs[0]);
      assert encs[0] + "" == encs[0];
      assert ParseField(encs[0] + "") == Some((fs[0], ""));
      assert Join(encs, ',') == encs[0];
      assert fs == [fs[0]];
    } else {
      var tail := Join(encs[1..], ',');
      ParseJoined(encs[1..], fs[1..]);
      assert Join(encs, ',') == encs[0] + ([','] + tail);
      assert Encodes(encs[0], fs[0]);
      assert FieldEnd([','] + tail);
      assert ParseField(encs[0] + ([','] + tail)) == Some((fs[0], [','] + tail));
      assert ([','] + tail)[1..] == tail;
      assert fs == [fs[0]] + fs[1..];
    }
  }
}
