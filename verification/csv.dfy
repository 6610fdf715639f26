/** The CSV dialect Python's `csv` writer uses by default: fields separated
    by commas, lines ended by CR LF, and minimal quoting — a field is put in
    double quotes only when it holds a comma, a double quote or a line
    break, with inner double quotes doubled (section 2 of RFC 4180). A
    reader for one line shows that the written text gives back its fields. */
module Csv {
  import opened Common
  import opened Seqs
  import opened Strings

  /** `QUOTE_MINIMAL`: the characters that force quoting. */
  predicate NeedsQuotes(s: string) {
    ',' in s || '"' in s || '\r' in s || '\n' in s
  }

  /** Every double quote doubled. */
  function Escape(s: string): (r: string)
    ensures |r| >= |s|
  {
    if s == [] then []
    else (if s[0] == '"' then "\"\"" else [s[0]]) + Escape(s[1..])
  }

  /** One field as the writer emits it. */
  function QuoteField(s: string): string {
    if NeedsQuotes(s) then "\"" + Escape(s) + "\"" else s
  }

  /** One record without its line ending. A record whose only field is empty
      is written `""`, so that it does not read as a blank line. */
  function FieldsText(fields: seq<string>): string {
    if fields == [""] then "\"\"" else Join(Map(fields, QuoteField), ",")
  }

  /** One record with its line ending. */
  function Line(fields: seq<string>): string {
    FieldsText(fields) + "\r\n"
  }

  // ---------------------------------------------------------------------------
  // Reading one record back

  /** The rest of a quoted field after its opening quote: the content up to
      the closing quote, with doubled quotes read as one, and the text after
      the closing quote; `None` when the closing quote is missing. */
  function ReadQuoted(s: string): (r: Option<(string, string)>)
    ensures r.Some? ==> |r.value.1| < |s|
    decreases |s|
  {
    if s == [] then None
    else if s[0] == '"' then
      if |s| >= 2 && s[1] == '"' then
        match ReadQuoted(s[2..])
        case None => None
        case Some((f, rest)) => Some((['"'] + f, rest))
      else Some(([], s[1..]))
    else
      match ReadQuoted(s[1..])
      case None => None
      case Some((f, rest)) => Some(([s[0]] + f, rest))
  }

  /** An unquoted field: everything up to the next comma. */
  function ReadPlain(s: string): (r: (string, string))
    ensures |r.1| <= |s|
    ensures r.0 + r.1 == s
    ensures ',' !in r.0 && (r.1 == [] || r.1[0] == ',')
  {
    if s == [] || s[0] == ',' then ([], s)
    else
      var (f, rest) := ReadPlain(s[1..]);
      assert s == [s[0]] + s[1..];
      ([s[0]] + f, rest)
  }

  /** One field, quoted or not, and the text after it. */
  function ReadField(s: string): (r: Option<(string, string)>)
    ensures r.Some? ==> |r.value.1| <= |s|
  {
    if s != [] && s[0] == '"' then ReadQuoted(s[1..]) else Some(ReadPlain(s))
  }

  /** The fields of one record, or `None` when it is malformed. */
  function ParseFields(s: string): Option<seq<string>>
    decreases |s|
  {
    match ReadField(s)
    case None => None
    case Some((f, rest)) =>
      if rest == [] then Some([f])
      else if rest[0] == ',' then
        match ParseFields(rest[1..])
        case None => None
        case Some(fs) => Some([f] + fs)
      else None
  }

  /** The escaped content and its closing quote read back as the content. */
  lemma {:induction false} ReadEscaped(f: string, rest: string)
    requires rest == [] || rest[0] != '"'
    ensures ReadQuoted(Escape(f) + "\"" + rest) == Some((f, rest))
    decreases |f|
  {
    if f == [] {
      assert Escape(f) + "\"" + rest == ['"'] + rest;
    } else {
      ReadEscaped(f[1..], rest);
      var tail := Escape(f[1..]) + "\"" + rest;
      ReadQuotedCons(f[0], tail, f[1..], rest);
      EscapeCons(f, rest);
      assert [f[0]] + f[1..] == f;
    }
  }

  /** Escaping peels off the first character. */
  lemma EscapeCons(f: string, rest: string)
    requires f != []
    ensures Escape(f) + "\"" + rest == (if f[0] == '"' then "\"\"" else [f[0]]) + (Escape(f[1..]) + "\"" + rest)
  {
  }

  /** One escaped character in front of quoted content reads back in front of it. */
  lemma ReadQuotedCons(c: char, tail: string, f: string, rest: string)
    requires ReadQuoted(tail) == Some((f, rest))
    ensures ReadQuoted((if c == '"' then "\"\"" else [c]) + tail) == Some(([c] + f, rest))
  {
    if c == '"' {
      assert ("\"\"" + tail)[2..] == tail;
    } else {
      assert ([c] + tail)[1..] == tail;
    }
  }

  /** A written field reads back as itself when a comma or the end follows. */
  lemma ReadQuotedField(f: string, rest: string)
    requires rest == [] || rest[0] == ','
    ensures ReadField(QuoteField(f) + rest) == Some((f, rest))
  {
    if NeedsQuotes(f) {
      ReadEscaped(f, rest);
      assert QuoteField(f) + rest == ['"'] + (Escape(f) + "\"" + rest);
    } else {
      PlainSplit(f, rest);
    }
  }

  /** Reading plain text stops at the first comma. */
  lemma {:induction false} PlainSplit(f: string, rest: string)
    requires ',' !in f && (rest == [] || rest[0] == ',')
    ensures ReadPlain(f + rest) == (f, rest)
    decreases |f|
  {
    if f == [] {
      assert f + rest == rest;
    } else {
      assert f[0] in f;
      PlainSplit(f[1..], rest);
      assert (f + rest)[1..] == f[1..] + rest;
      assert [f[0]] + f[1..] == f;
    }
  }

  /** Every record the writer emits reads back as its fields. */
  lemma {:induction false} FieldsRoundTrip(fields: seq<string>)
    requires fields != []
    ensures ParseFields(FieldsText(fields)) == Some(fields)
    decreases |fields|
  {
    if fields == [""] {
      assert FieldsText(fields) == ['"'] + (Escape("") + "\"" + "");
    } else if |fields| == 1 {
      ReadQuotedField(fields[0], "");
      assert QuoteField(fields[0]) + "" == QuoteField(fields[0]);
      assert FieldsText(fields) == QuoteField(fields[0]);
      assert fields == [fields[0]];
    } else {
      var tail := FieldsTextSplit(fields);
      if fields[1..] == [""] {
        assert tail == "";
        assert ParseFields(tail) == Some([""]);
      } else {
        FieldsRoundTrip(fields[1..]);
      }
      ReadCons(fields[0], tail, fields[1..]);
      assert [fields[0]] + fields[1..] == fields;
    }
  }

  /** A record of two or more fields is its first field, a comma, and the
      joined rest, which is the rest's own text unless the rest is one empty field. */
  lemma FieldsTextSplit(fields: seq<string>) returns (tail: string)
    requires |fields| >= 2
    ensures FieldsText(fields) == QuoteField(fields[0]) + ("," + tail)
    ensures fields[1..] == [""] ==> tail == ""
    ensures fields[1..] != [""] ==> tail == FieldsText(fields[1..])
  {
    var quoted := Map(fields, QuoteField);
    assert quoted[1..] == Map(fields[1..], QuoteField);
    tail := Join(quoted[1..], ",");
  }

  /** A field written in front of a record that reads back reads back in front of it. */
  lemma ReadCons(f: string, tail: string, fs: seq<string>)
    requires ParseFields(tail) == Some(fs)
    ensures ParseFields(QuoteField(f) + ("," + tail)) == Some([f] + fs)
  {
    ReadQuotedField(f, "," + tail);
    assert ("," + tail)[1..] == tail;
  }
}
