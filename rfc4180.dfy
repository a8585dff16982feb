/** A reference reader for the comma-separated-values format of section 2 of
    RFC 4180, against which both CSV writers of the extension are proved.

    A field is either escaped (enclosed in double quotes, an embedded double
    quote written as two) or non-escaped (no comma, double quote or line
    break). Fields are separated by commas and records by line breaks; the
    last record may or may not end with a line break. Records are separated
    by LF alone, the line break the extension writes; CR is ordinary text. */
module Rfc4180 {
  import opened JsText

  const Quote: char := '"'
  const Comma: char := ','
  const LineFeed: char := '\n'

  /** The body of an escaped field, read up to its closing quote; `s` starts
      just after the opening quote. Gives the field and what follows the
      closing quote, or None when the closing quote is missing. */
  function ParseEscaped(s: string): (r: Option<(string, string)>)
    ensures r.Some? ==> |r.value.1| < |s|
  {
    if s == [] then None
    else if s[0] == Quote then
      if |s| > 1 && s[1] == Quote then
        match ParseEscaped(s[2..])
        case None => None
        case Some((f, rest)) => Some(([Quote] + f, rest))
      else Some(([], s[1..]))
    else
      match ParseEscaped(s[1..])
      case None => None
      case Some((f, rest)) => Some(([s[0]] + f, rest))
  }

  /** A non-escaped field: everything up to the next comma or line break.
      A double quote inside it is malformed. */
  function ParseBare(s: string): (r: Option<(string, string)>)
    ensures r.Some? ==> |r.value.1| <= |s|
    ensures r.Some? ==> r.value.1 == [] || r.value.1[0] == Comma || r.value.1[0] == LineFeed
  {
    if s == [] || s[0] == Comma || s[0] == LineFeed then Some(([], s))
    else if s[0] == Quote then None
    else
      match ParseBare(s[1..])
      case None => None
      case Some((f, rest)) => Some(([s[0]] + f, rest))
  }

  /** One field, escaped or not, and the text after it. */
  function ParseField(s: string): (r: Option<(string, string)>)
    ensures r.Some? ==> |r.value.1| <= |s|
  {
    if s != [] && s[0] == Quote then ParseEscaped(s[1..]) else ParseBare(s)
  }

  /** One record: its fields and the text after its line break (empty when
      the record ends the text). A field followed by anything but a comma,
      a line break or the end of the text is malformed. */
  function ParseRecord(s: string): (r: Option<(seq<string>, string)>)
    ensures r.Some? ==> |r.value.0| > 0
    ensures r.Some? ==> |r.value.1| <= |s| && (s != [] ==> |r.value.1| < |s|)
    decreases |s|
  {
    match ParseField(s)
    case None => None
    case Some((f, rest)) =>
      if rest == [] then Some(([f], []))
      else if rest[0] == LineFeed then Some(([f], rest[1..]))
      else if rest[0] == Comma then
        match ParseRecord(rest[1..])
        case None => None
        case Some((fs, tail)) => Some(([f] + fs, tail))
      else None
  }

  /** The records of a whole text; the empty text holds no record. */
  function Parse(s: string): (r: Option<seq<seq<string>>>)
    ensures r.Some? ==> forall k :: 0 <= k < |r.value| ==> |r.value[k]| > 0
    decreases |s|
  {
    if s == [] then Some([])
    else
      match ParseRecord(s)
      case None => None
      case Some((fields, rest)) =>
        match Parse(rest)
        case None => None
        case Some(records) => Some([fields] + records)
  }

  /** Inside an escaped field every double quote is written twice
      (`s.replace(/"/g, '""')`). */
  function Escape(s: string): (r: string)
    ensures |r| >= |s|
  {
    if s == [] then []
    else (if s[0] == Quote then [Quote, Quote] else [s[0]]) + Escape(s[1..])
  }

  /** A text without double quotes is its own escaped body. */
  lemma {:induction false} EscapeWithoutQuote(s: string)
    requires Quote !in s
    ensures Escape(s) == s
  {
    if s != [] {
      assert s[0] in s;
      assert forall k :: 0 <= k < |s| - 1 ==> s[1..][k] == s[k + 1];
      EscapeWithoutQuote(s[1..]);
      assert [s[0]] + s[1..] == s;
    }
  }

  /** The escaped form of a field: enclosed in double quotes. */
  function EscapedField(s: string): (r: string)
    ensures |r| >= 2 && r[0] == Quote && r[|r| - 1] == Quote
  {
    [Quote] + Escape(s) + [Quote]
  }

  /** A field that may be written without escaping. */
  predicate IsBare(s: string)
  {
    forall i :: 0 <= i < |s| ==> s[i] != Comma && s[i] != Quote && s[i] != LineFeed
  }

  /** `e` is a well-formed way of writing the field `f`. */
  predicate FieldEncodes(e: string, f: string)
  {
    e == EscapedField(f) || (e == f && IsBare(f))
  }

  /** Each field written with the field writer `enc`. */
  function WriteFields(enc: string -> string, fields: seq<string>): (r: seq<string>)
    ensures |r| == |fields|
    ensures forall k :: 0 <= k < |fields| ==> r[k] == enc(fields[k])
  {
    seq(|fields|, k requires 0 <= k < |fields| => enc(fields[k]))
  }

  /** One record written with the field writer `enc`, fields joined by commas. */
  function WriteRecord(enc: string -> string, fields: seq<string>): string
  {
    Join(WriteFields(enc, fields), [Comma])
  }

  /** Each record written as one line. */
  function WriteLines(enc: string -> string, records: seq<seq<string>>): (r: seq<string>)
    ensures |r| == |records|
    ensures forall i :: 0 <= i < |records| ==> r[i] == WriteRecord(enc, records[i])
  {
    seq(|records|, i requires 0 <= i < |records| => WriteRecord(enc, records[i]))
  }

  /** Records written with the field writer `enc`, joined by line feeds with
      no line feed after the last one. */
  function Write(enc: string -> string, records: seq<seq<string>>): string
  {
    Join(WriteLines(enc, records), [LineFeed])
  }

  /** Reading an escaped body stops at the first single quote and undoes the
      doubling, whatever follows as long as it is not another quote. */
  lemma {:induction false} EscapedBodyRoundTrip(x: string, rest: string)
    requires rest == [] || rest[0] != Quote
    ensures ParseEscaped(Escape(x) + [Quote] + rest) == Some((x, rest))
  {
    if x == [] {
      assert Escape(x) + [Quote] + rest == [Quote] + rest;
    } else {
      var t := Escape(x[1..]) + [Quote] + rest;
      var head := if x[0] == Quote then [Quote, Quote] else [x[0]];
      assert Escape(x) + [Quote] + rest == head + t by {
        assert Escape(x) == head + Escape(x[1..]);
      }
      assert ParseEscaped(head + t) == Some((x, rest)) by {
        EscapedBodyRoundTrip(x[1..], rest);
        EscapedStep(x[0], t);
        assert [x[0]] + x[1..] == x;
      }
    }
  }

  /** One more character of an escaped body: a doubled quote or any other
      character is read as itself, in front of what the rest reads as. */
  lemma EscapedStep(c: char, t: string)
    ensures var head := if c == Quote then [Quote, Quote] else [c];
      ParseEscaped(head + t) == match ParseEscaped(t)
        case None => None
        case Some((f, rest)) => Some(([c] + f, rest))
  {
    if c == Quote {
      assert ([Quote, Quote] + t)[2..] == t;
    } else {
      assert ([c] + t)[1..] == t;
    }
  }

  /** A bare field is read back up to the separator that follows it. */
  lemma {:induction false} BareRoundTrip(x: string, rest: string)
    requires IsBare(x)
    requires rest == [] || rest[0] == Comma || rest[0] == LineFeed
    ensures ParseBare(x + rest) == Some((x, rest))
  {
    if x != [] {
      BareRoundTrip(x[1..], rest);
      assert (x + rest)[1..] == x[1..] + rest;
      assert [x[0]] + x[1..] == x;
    } else {
      assert x + rest == rest;
    }
  }

  /** A well-formed field followed by a separator or the end of the text is
      read back exactly. */
  lemma {:induction false} FieldRoundTrip(e: string, f: string, rest: string)
    requires FieldEncodes(e, f)
    requires rest == [] || rest[0] == Comma || rest[0] == LineFeed
    ensures ParseField(e + rest) == Some((f, rest))
  {
    if e == EscapedField(f) {
      assert (e + rest)[1..] == Escape(f) + [Quote] + rest;
      EscapedBodyRoundTrip(f, rest);
    } else {
      assert f == [] || f[0] != Quote;
      BareRoundTrip(f, rest);
    }
  }

  /** A record of several fields is its first field, a comma, and the rest. */
  lemma WriteRecordCons(enc: string -> string, fields: seq<string>)
    requires |fields| > 1
    ensures WriteRecord(enc, fields) == enc(fields[0]) + [Comma] + WriteRecord(enc, fields[1..])
  {
    assert WriteFields(enc, fields)[1..] == WriteFields(enc, fields[1..]);
  }

  /** Several records are the first record's line, a line feed, and the rest. */
  lemma WriteCons(enc: string -> string, records: seq<seq<string>>)
    requires |records| > 1
    ensures Write(enc, records) == WriteRecord(enc, records[0]) + [LineFeed] + Write(enc, records[1..])
  {
    assert WriteLines(enc, records)[1..] == WriteLines(enc, records[1..]);
  }

  /** A well-formed field, a comma and a record read as one record with
      that field in front. */
  lemma {:induction false} FieldThenRecord(e: string, f: string, more: string)
    requires FieldEncodes(e, f)
    ensures ParseRecord(e + [Comma] + more) == match ParseRecord(more)
      case None => None
      case Some((fs, tail)) => Some(([f] + fs, tail))
  {
    var rest := [Comma] + more;
    assert e + [Comma] + more == e + rest;
    FieldRoundTrip(e, f, rest);
    assert rest[1..] == more;
  }

  /** A written record, followed by a line break or the end of the text, is
      read back as the same fields. */
  lemma {:induction false} RecordRoundTrip(enc: string -> string, fields: seq<string>, tail: string)
    requires forall f :: FieldEncodes(enc(f), f)
    requires |fields| > 0
    requires tail == [] || tail[0] == LineFeed
    ensures ParseRecord(WriteRecord(enc, fields) + tail) == Some((fields, if tail == [] then [] else tail[1..]))
  {
    if |fields| == 1 {
      assert WriteRecord(enc, fields) == enc(fields[0]);
      FieldRoundTrip(enc(fields[0]), fields[0], tail);
      assert [fields[0]] == fields;
    } else {
      var more := WriteRecord(enc, fields[1..]) + tail;
      assert WriteRecord(enc, fields) + tail == enc(fields[0]) + [Comma] + more by {
        WriteRecordCons(enc, fields);
      }
      RecordRoundTrip(enc, fields[1..], tail);
      FieldThenRecord(enc(fields[0]), fields[0], more);
      assert [fields[0]] + fields[1..] == fields;
    }
  }

  /** One more record in front: if the rest reads back, so does the whole. */
  lemma WriteRoundTripCons(enc: string -> string, records: seq<seq<string>>)
    requires forall f :: FieldEncodes(enc(f), f)
    requires |records| > 1 && |records[0]| > 0
    requires Parse(Write(enc, records[1..])) == Some(records[1..])
    ensures Parse(Write(enc, records)) == Some(records)
  {
    var tail := [LineFeed] + Write(enc, records[1..]);
    assert Write(enc, records) == WriteRecord(enc, records[0]) + tail by {
      WriteCons(enc, records);
    }
    RecordRoundTrip(enc, records[0], tail);
    assert tail[1..] == Write(enc, records[1..]);
    assert [records[0]] + records[1..] == records;
  }

  /** Writing records with a well-formed field writer and reading the text
      back gives the records again, provided no record is empty and the last
      one is not written as an empty line (an empty last line would read as
      the optional final line break). */
  lemma {:induction false} WriteRoundTrip(enc: string -> string, records: seq<seq<string>>)
    requires forall f :: FieldEncodes(enc(f), f)
    requires forall i :: 0 <= i < |records| ==> |records[i]| > 0
    requires records == [] || WriteRecord(enc, records[|records| - 1]) != []
    ensures Parse(Write(enc, records)) == Some(records)
  {
    if |records| == 1 {
      assert Write(enc, records) == WriteRecord(enc, records[0]) + [];
      RecordRoundTrip(enc, records[0], []);
      assert [records[0]] + [] == records;
    } else if |records| > 1 {
      assert records[1..][|records| - 2] == records[|records| - 1];
      WriteRoundTrip(enc, records[1..]);
      WriteRoundTripCons(enc, records);
    }
  }
}
