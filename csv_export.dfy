/**
 * `convertToCSV` of public/js/csv-manager.js: the reviewed rows as CSV text,
 * a header record `"Question","Answer"` first and one record per row. Every
 * field is quoted with inner double quotes doubled, as in section 2
 * (rules 5 to 7) of RFC 4180; records are separated by a line feed alone,
 * not the CRLF of rule 1.
 *
 * `ParseRecords` is a reader for exactly that shape of text; the round trip
 * through it is what shows the encoding loses nothing.
 */
module CsvExport {
  import opened Wrappers
  import opened Text

  /** One entry of the client's `processedData`. */
  datatype ProcessedRow = ProcessedRow(question: string, answer: string)

  const Header: seq<string> := ["Question", "Answer"]

  /** `str.replace(/"/g, '""')`. */
  function EscapeBody(s: string): string {
    if s == [] then []
    else (if s[0] == '"' then "\"\"" else [s[0]]) + EscapeBody(s[1..])
  }

  /** One quoted field. */
  function Field(s: string): string {
    "\"" + EscapeBody(s) + "\""
  }

  /** The fields of a record, quoted and joined by commas. */
  function EncodeRecord(fields: seq<string>): string {
    Join(",", seq(|fields|, i requires 0 <= i < |fields| => Field(fields[i])))
  }

  /** The records `convertToCSV` writes: the header, then question and
      answer of each row, in order. */
  function Records(data: seq<ProcessedRow>): (rs: seq<seq<string>>)
    ensures |rs| == 1 + |data| && rs[0] == Header
    ensures forall i :: 0 <= i < |data| ==> rs[i + 1] == [data[i].question, data[i].answer]
  {
    [Header] + seq(|data|, i requires 0 <= i < |data| => [data[i].question, data[i].answer])
  }

  /** Records joined by line feeds. */
  function EncodeRecords(rs: seq<seq<string>>): string {
    Join("\n", seq(|rs|, i requires 0 <= i < |rs| => EncodeRecord(rs[i])))
  }

  /** `convertToCSV(data)`. */
  function ConvertToCsv(data: seq<ProcessedRow>): string {
    EncodeRecords(Records(data))
  }

  // ---------------------------------------------------------------------
  // A reader for the text `convertToCSV` writes.

  /** The body of a quoted field, read after its opening quote: the
      unescaped text and what follows the closing quote. */
  function ParseBody(s: string): (r: Option<(string, string)>)
    ensures r.Some? ==> |r.value.1| < |s|
  {
    if s == [] then None
    else if s[0] == '"' then
      if |s| >= 2 && s[1] == '"' then
        match ParseBody(s[2..])
        case None => None
        case Some((b, rest)) => Some(("\"" + b, rest))
      else Some(("", s[1..]))
    else
      match ParseBody(s[1..])
      case None => None
      case Some((b, rest)) => Some(([s[0]] + b, rest))
  }

  /** A quoted field and what follows it. */
  function ParseField(s: string): (r: Option<(string, string)>)
    ensures r.Some? ==> |r.value.1| < |s|
  {
    if s != [] && s[0] == '"' then ParseBody(s[1..]) else None
  }

  /** Comma-separated quoted fields and what follows the last one. */
  function ParseFields(s: string): (r: Option<(seq<string>, string)>)
    ensures r.Some? ==> |r.value.1| < |s|
    decreases |s|
  {
    match ParseField(s)
    case None => None
    case Some((f, rest)) =>
      if rest != [] && rest[0] == ',' then
        match ParseFields(rest[1..])
        case None => None
        case Some((fs, rest')) => Some(([f] + fs, rest'))
      else Some(([f], rest))
  }

  /** Records separated by line feeds, up to the end of the text. */
  function ParseRecords(s: string): Option<seq<seq<string>>>
    decreases |s|
  {
    match ParseFields(s)
    case None => None
    case Some((fs, rest)) =>
      if rest == [] then Some([fs])
      else if rest[0] == '\n' then
        match ParseRecords(rest[1..])
        case None => None
        case Some(rs) => Some([fs] + rs)
      else None
  }

  // ---------------------------------------------------------------------
  // Round trips.

  lemma Assoc3(a: string, b: string, c: string, d: string)
    ensures a + b + c + d == a + (b + c + d)
  {
  }

  lemma DropPrefix(a: string, u: string)
    ensures (a + u)[|a|..] == u
  {
  }

  /** Reading an escaped body followed by the closing quote gives back the
      text, as long as the closing quote is not followed by another quote. */
  lemma {:induction false} BodyRoundTrip(x: string, t: string)
    requires t == [] || t[0] != '"'
    ensures ParseBody(EscapeBody(x) + "\"" + t) == Some((x, t))
    decreases |x|
  {
    var s := EscapeBody(x) + "\"" + t;
    if x == [] {
      assert s == "\"" + t;
      assert s[1..] == t;
    } else {
      var e := if x[0] == '"' then "\"\"" else [x[0]];
      var u := EscapeBody(x[1..]) + "\"" + t;
      Assoc3(e, EscapeBody(x[1..]), "\"", t);
      assert s == e + u;
      DropPrefix(e, u);
      BodyRoundTrip(x[1..], t);
      assert [x[0]] + x[1..] == x;
      if x[0] == '"' {
        assert s[0] == '"' && s[1] == '"' && s[2..] == u;
      } else {
        assert s[0] == x[0] && s[1..] == u;
      }
    }
  }

  /** A quoted field reads back as its text. */
  lemma FieldRoundTrip(x: string, t: string)
    requires t == [] || t[0] != '"'
    ensures ParseField(Field(x) + t) == Some((x, t))
  {
    var s := Field(x) + t;
    assert s == "\"" + (EscapeBody(x) + "\"" + t);
    DropPrefix("\"", EscapeBody(x) + "\"" + t);
    BodyRoundTrip(x, t);
  }

  function Quoted(fields: seq<string>): (qs: seq<string>)
    ensures |qs| == |fields|
    ensures forall i :: 0 <= i < |fields| ==> qs[i] == Field(fields[i])
  {
    seq(|fields|, i requires 0 <= i < |fields| => Field(fields[i]))
  }

  /** A record of at least one field reads back as its fields, as long as it
      is followed by neither a comma nor a quote. */
  lemma {:induction false} FieldsRoundTrip(fields: seq<string>, t: string)
    requires |fields| >= 1
    requires t == [] || (t[0] != ',' && t[0] != '"')
    ensures ParseFields(EncodeRecord(fields) + t) == Some((fields, t))
    decreases |fields|
  {
    var qs := Quoted(fields);
    assert EncodeRecord(fields) == Join(",", qs);
    if |fields| == 1 {
      assert Join(",", qs) == Field(fields[0]);
      FieldRoundTrip(fields[0], t);
      assert fields == [fields[0]];
    } else {
      var rest := fields[1..];
      assert Quoted(rest) == qs[1..];
      var u := EncodeRecord(rest) + t;
      assert Join(",", qs) == Field(fields[0]) + "," + EncodeRecord(rest);
      Assoc3(Field(fields[0]), ",", EncodeRecord(rest), t);
      assert EncodeRecord(fields) + t == Field(fields[0]) + ("," + u);
      FieldRoundTrip(fields[0], "," + u);
      DropPrefix(",", u);
      FieldsRoundTrip(rest, t);
      assert ParseFields(u) == Some((rest, t));
      assert [fields[0]] + rest == fields;
    }
  }

  function Encoded(rs: seq<seq<string>>): (es: seq<string>)
    ensures |es| == |rs|
    ensures forall i :: 0 <= i < |rs| ==> es[i] == EncodeRecord(rs[i])
  {
    seq(|rs|, i requires 0 <= i < |rs| => EncodeRecord(rs[i]))
  }

  /** Records of at least one field each read back as they were. */
  lemma {:induction false} RecordsRoundTrip(rs: seq<seq<string>>)
    requires |rs| >= 1
    requires forall i :: 0 <= i < |rs| ==> |rs[i]| >= 1
    ensures ParseRecords(EncodeRecords(rs)) == Some(rs)
    decreases |rs|
  {
    var es := Encoded(rs);
    assert EncodeRecords(rs) == Join("\n", es);
    if |rs| == 1 {
      assert Join("\n", es) == EncodeRecord(rs[0]);
      FieldsRoundTrip(rs[0], []);
      assert EncodeRecord(rs[0]) + [] == EncodeRecord(rs[0]);
      assert rs == [rs[0]];
    } else {
      var rest := rs[1..];
      assert Encoded(rest) == es[1..];
      var u := EncodeRecords(rest);
      assert Join("\n", es) == EncodeRecord(rs[0]) + ("\n" + u);
      FieldsRoundTrip(rs[0], "\n" + u);
      DropPrefix("\n", u);
      RecordsRoundTrip(rest);
      assert ParseRecords(u) == Some(rest);
      assert [rs[0]] + rest == rs;
    }
  }

  /** `convertToCSV` writes 1 + n records: the header, then each row's
      question and answer in input order, and nothing is lost. */
  lemma ConvertRoundTrip(data: seq<ProcessedRow>)
    ensures ParseRecords(ConvertToCsv(data)) == Some(Records(data))
  {
    RecordsRoundTrip(Records(data));
  }

  // ---------------------------------------------------------------------
  // Properties of the escaping.

  /** Escaping adds one character per double quote. */
  lemma {:induction false} EscapeLength(s: string)
    ensures |EscapeBody(s)| == |s| + Count(s, '"')
  {
    if s != [] {
      EscapeLength(s[1..]);
    }
  }

  /** Every double quote of an escaped body is one of a doubled pair. */
  predicate QuotesPaired(b: string)
    decreases |b|
  {
    b == []
    || (b[0] != '"' && QuotesPaired(b[1..]))
    || (|b| >= 2 && b[0] == '"' && b[1] == '"' && QuotesPaired(b[2..]))
  }

  lemma {:induction false} EscapePaired(s: string)
    ensures QuotesPaired(EscapeBody(s))
  {
    if s != [] {
      EscapePaired(s[1..]);
      var e := if s[0] == '"' then "\"\"" else [s[0]];
      DropPrefix(e, EscapeBody(s[1..]));
    }
  }

  /** Escaping adds no character but `"`: a carriage return or a line feed
      in the output comes from the data. */
  lemma {:induction false} EscapeAddsOnlyQuotes(s: string, c: char)
    requires c != '"'
    ensures c in EscapeBody(s) <==> c in s
  {
    if s != [] {
      EscapeAddsOnlyQuotes(s[1..], c);
      assert s == [s[0]] + s[1..];
    }
  }

  /** A character that is not in the separator is in a joined text exactly
      when it is in one of the parts. */
  lemma {:induction false} JoinHas(sep: string, parts: seq<string>, c: char)
    requires c !in sep
    ensures c in Join(sep, parts) <==> exists i :: 0 <= i < |parts| && c in parts[i]
  {
    if |parts| >= 2 {
      var rest := parts[1..];
      JoinHas(sep, rest, c);
      assert Join(sep, parts) == parts[0] + (sep + Join(sep, rest));
      if c in Join(sep, rest) {
        var i :| 0 <= i < |rest| && c in rest[i];
        assert c in parts[i + 1];
      }
      if exists i :: 0 <= i < |parts| && c in parts[i] {
        var i :| 0 <= i < |parts| && c in parts[i];
        if i > 0 {
          assert c in rest[i - 1];
        }
      }
    }
  }

  /** A character other than `"` and `,` is in an encoded record exactly
      when it is in one of its fields. */
  lemma RecordHas(fields: seq<string>, c: char)
    requires c != '"' && c != ','
    ensures c in EncodeRecord(fields) <==> exists i :: 0 <= i < |fields| && c in fields[i]
  {
    var qs := Quoted(fields);
    assert EncodeRecord(fields) == Join(",", qs);
    JoinHas(",", qs, c);
    forall i | 0 <= i < |fields| ensures c in qs[i] <==> c in fields[i] {
      EscapeAddsOnlyQuotes(fields[i], c);
      assert qs[i] == "\"" + (EscapeBody(fields[i]) + "\"");
    }
  }

  /** A character other than `"`, `,` and a line feed is in the encoded
      records exactly when it is in one of their fields. */
  lemma RecordsHas(rs: seq<seq<string>>, c: char)
    requires c != '"' && c != ',' && c != '\n'
    ensures c in EncodeRecords(rs) <==>
      exists k, j :: 0 <= k < |rs| && 0 <= j < |rs[k]| && c in rs[k][j]
  {
    var es := Encoded(rs);
    assert EncodeRecords(rs) == Join("\n", es);
    JoinHas("\n", es, c);
    forall k | 0 <= k < |rs| ensures c in es[k] <==> exists j :: 0 <= j < |rs[k]| && c in rs[k][j] {
      RecordHas(rs[k], c);
    }
  }

  lemma HeaderPlain()
    ensures forall j :: 0 <= j < |Header| ==> '\r' !in Header[j]
  {
    assert forall c :: c in Header[0] ==> 'A' <= c <= 'z';
    assert forall c :: c in Header[1] ==> 'A' <= c <= 'z';
  }

  /** A field of a record after the header is its row's question or answer. */
  lemma RecordField(data: seq<ProcessedRow>, k: nat, j: nat)
    requires 0 < k < |Records(data)| && j < |Records(data)[k]|
    ensures Records(data)[k][j] == (if j == 0 then data[k - 1].question else data[k - 1].answer)
  {
    assert Records(data)[k] == [data[k - 1].question, data[k - 1].answer];
  }

  /** The output holds a carriage return only where a question or an answer
      does: the record separator is a bare line feed. */
  lemma NoCarriageReturnAdded(data: seq<ProcessedRow>)
    ensures '\r' in ConvertToCsv(data) <==>
      exists i :: 0 <= i < |data| && ('\r' in data[i].question || '\r' in data[i].answer)
  {
    var rs := Records(data);
    RecordsHas(rs, '\r');
    if exists i :: 0 <= i < |data| && ('\r' in data[i].question || '\r' in data[i].answer) {
      var i :| 0 <= i < |data| && ('\r' in data[i].question || '\r' in data[i].answer);
      assert rs[i + 1][0] == data[i].question && rs[i + 1][1] == data[i].answer;
    }
    if '\r' in ConvertToCsv(data) {
      var k, j :| 0 <= k < |rs| && 0 <= j < |rs[k]| && '\r' in rs[k][j];
      HeaderPlain();
      assert k > 0;
      RecordField(data, k, j);
    }
  }
}
