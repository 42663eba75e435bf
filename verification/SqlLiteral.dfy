/**
 Literals of the seed script, as printed, and as PostgreSQL reads them back: string
 constants by the rule of section 4.1.2.1 of its manual with standard-conforming strings,
 the continuation of a constant across a line break included; `bytea` in hex format.
 */
module SqlLiteral {
  import opened Common

  type byte = b: int | 0 <= b < 256

  // ----- Printing -----

  /** `replace(/'/g, "''")` */
  function Escape(s: string): string {
    if s == "" then "" else (if s[0] == '\'' then "''" else [s[0]]) + Escape(s[1..])
  }

  function Quote(s: string): string {
    "'" + Escape(s) + "'"
  }

  function HexDigit(d: int): char
    requires 0 <= d < 16
  {
    "0123456789abcdef"[d]
  }

  function Hex(bytes: seq<byte>): string {
    if bytes == [] then "" else [HexDigit(bytes[0] / 16), HexDigit(bytes[0] % 16)] + Hex(bytes[1..])
  }

  datatype Field = Null | Text(text: string) | Bytes(bytes: seq<byte>) | Json(json: string)

  /** `sqlString`, `sqlBytea` and `sqlJsonb`; a JSON value is the text it stringifies to. */
  function Print(f: Field): string {
    match f
    case Null => "NULL"
    case Text(s) => Quote(s)
    case Bytes(b) => "'\\x" + Hex(b) + "'" + "::bytea"
    case Json(s) => Quote(s) + "::jsonb"
  }

  function PrintRow(fs: seq<Field>): string
    requires fs != []
  {
    if |fs| == 1 then Print(fs[0]) else Print(fs[0]) + ", " + PrintRow(fs[1..])
  }

  // ----- Reading -----

  predicate StartsWith(s: string, prefix: string) {
    prefix <= s
  }

  /** White space of the lexer: blank, tab, line breaks and form feed. */
  predicate Space(c: char) {
    c == ' ' || c == '\t' || c == '\n' || c == '\r' || c == '\U{000C}'
  }

  /** The number of leading white-space characters. */
  function Spaces(s: string): (n: nat)
    ensures n <= |s|
  {
    if s == "" || !Space(s[0]) then 0 else 1 + Spaces(s[1..])
  }

  /** Another quoted part follows after white space with a line break in it. */
  predicate Continues(s: string) {
    var n := Spaces(s);
    n < |s| && s[n] == '\'' && ('\n' in s[..n] || '\r' in s[..n])
  }

  /** The text up to the closing quote, and what follows it. */
  function ReadBody(s: string): (r: Option<(string, string)>)
    ensures r.Some? ==> |r.value.1| < |s|
  {
    if s == "" then None
    else if s[0] != '\'' then Prepend([s[0]], ReadBody(s[1..]))
    else if |s| > 1 && s[1] == '\'' then Prepend("'", ReadBody(s[2..]))
    else Some(("", s[1..]))
  }

  function Prepend(p: string, r: Option<(string, string)>): Option<(string, string)> {
    if r.None? then None else Some((p + r.value.0, r.value.1))
  }

  function ReadConstant(s: string): (r: Option<(string, string)>)
    ensures r.Some? ==> |r.value.1| < |s|
    decreases |s|
  {
    if s == "" || s[0] != '\'' then None
    else
      var r := ReadBody(s[1..]);
      if r.None? || !Continues(r.value.1) then r
      else Prepend(r.value.0, ReadConstant(r.value.1[Spaces(r.value.1)..]))
  }

  function HexValue(c: char): Option<int> {
    if '0' <= c <= '9' then Some(c as int - '0' as int)
    else if 'a' <= c <= 'f' then Some(c as int - 'a' as int + 10)
    else if 'A' <= c <= 'F' then Some(c as int - 'A' as int + 10)
    else None
  }

  function Unhex(s: string): Option<seq<byte>> {
    if s == "" then Some([])
    else if |s| == 1 then None
    else
      match (HexValue(s[0]), HexValue(s[1]), Unhex(s[2..]))
      case (Some(h), Some(l), Some(rest)) => if 0 <= 16 * h + l < 256 then Some([16 * h + l] + rest) else None
      case _ => None
  }

  function ReadField(s: string): Option<(Field, string)> {
    if StartsWith(s, "NULL") then Some((Null, s[4..]))
    else
      match ReadConstant(s)
      case None => None
      case Some((v, rest)) => ReadCast(v, rest)
  }

  /** The type cast after a constant, if there is one. */
  function ReadCast(v: string, rest: string): Option<(Field, string)> {
    if StartsWith(rest, "::bytea") then
      if StartsWith(v, "\\x") && Unhex(v[2..]).Some? then Some((Bytes(Unhex(v[2..]).value), rest[7..])) else None
    else if StartsWith(rest, "::jsonb") then Some((Json(v), rest[7..]))
    else Some((Text(v), rest))
  }

  /** Fields separated by a comma and a space, as many as there are. */
  function ReadRow(s: string): Option<(seq<Field>, string)>
    decreases |s|
  {
    match ReadField(s)
    case None => None
    case Some((f, rest)) =>
      if !StartsWith(rest, ", ") || |rest| - 2 >= |s| then Some(([f], rest))
      else
        match ReadRow(rest[2..])
        case None => None
        case Some((fs, end)) => Some(([f] + fs, end))
  }

  // ----- Round trips -----

  lemma PrependTwice(p: string, q: string, r: Option<(string, string)>)
    ensures Prepend(p, Prepend(q, r)) == Prepend(p + q, r)
  {
    if r.Some? {
      assert p + (q + r.value.0) == p + q + r.value.0;
    }
  }

  lemma {:induction false} ReadEscaped(s: string, t: string)
    ensures ReadBody(Escape(s) + t) == Prepend(s, ReadBody(t))
    decreases |s|
  {
    if s == "" {
      assert Escape(s) + t == t;
      assert ReadBody(t).Some? ==> "" + ReadBody(t).value.0 == ReadBody(t).value.0;
    } else {
      ReadEscaped(s[1..], t);
      var e := if s[0] == '\'' then "''" else [s[0]];
      assert Escape(s) + t == e + (Escape(s[1..]) + t);
      assert (e + (Escape(s[1..]) + t))[|e|..] == Escape(s[1..]) + t;
      assert s == [s[0]] + s[1..];
      PrependTwice([s[0]], s[1..], ReadBody(t));
    }
  }

  lemma ReadQuotedBody(s: string, tail: string)
    requires !StartsWith(tail, "'")
    ensures ReadBody((Quote(s) + tail)[1..]) == Some((s, tail))
  {
    ReadEscaped(s, "'" + tail);
    assert (Quote(s) + tail)[1..] == Escape(s) + ("'" + tail);
    assert ("'" + tail)[1..] == tail && s + "" == s;
    if |tail| > 0 {
      assert ("'" + tail)[1] == tail[0];
    }
  }

  /** A printed string reads back to itself and leaves what follows it, for every string
      and exactly those tails that neither start with a quote nor continue the constant
      after a line break. */
  lemma StringReadsBack(s: string, tail: string)
    ensures ReadConstant(Quote(s) + tail) == Some((s, tail)) <==> !StartsWith(tail, "'") && !Continues(tail)
  {
    var r := ReadConstant(Quote(s) + tail);
    if !StartsWith(tail, "'") {
      ReadQuotedBody(s, tail);
      if Continues(tail) {
        assert r.Some? ==> |r.value.1| < |tail|;
      }
    } else {
      var t := tail[1..];
      assert tail == "'" + t;
      ReadEscaped(s, "''" + t);
      assert (Quote(s) + tail)[1..] == Escape(s) + ("''" + t);
      assert ("''" + t)[2..] == t;
      assert ReadBody("''" + t) == Prepend("'", ReadBody(t));
      if r.Some? {
        assert |r.value.1| < |tail|;
      }
    }
  }

  lemma {:induction false} HexReadsBack(b: seq<byte>)
    ensures Unhex(Hex(b)) == Some(b)
    decreases |b|
  {
    if b != [] {
      HexReadsBack(b[1..]);
      UnhexStep(b[0], Hex(b[1..]));
      assert b == [b[0]] + b[1..];
    }
  }

  lemma UnhexStep(b: byte, rest: string)
    ensures Unhex([HexDigit(b / 16), HexDigit(b % 16)] + rest)
              == if Unhex(rest).None? then None else Some([b] + Unhex(rest).value)
  {
    HexDigitReadsBack(b / 16);
    HexDigitReadsBack(b % 16);
    UnhexPair(HexDigit(b / 16), HexDigit(b % 16), b, rest);
  }

  lemma UnhexPair(c: char, d: char, b: byte, rest: string)
    requires HexValue(c) == Some(b / 16) && HexValue(d) == Some(b % 16)
    ensures Unhex([c, d] + rest) == if Unhex(rest).None? then None else Some([b] + Unhex(rest).value)
  {
    var s := [c, d] + rest;
    assert s[2..] == rest && s[0] == c && s[1] == d;
    assert 16 * (b / 16) + b % 16 == b;
    if Unhex(rest).None? {
      assert Unhex(s).None?;
    }
  }

  lemma HexDigitReadsBack(d: int)
    requires 0 <= d < 16
    ensures HexValue(HexDigit(d)) == Some(d)
  {
  }

  lemma EscapePlain(c: char, s: string)
    requires c != '\''
    ensures Escape([c] + s) == [c] + Escape(s)
  {
  }

  lemma EscapeTwoPlain(c: char, d: char, s: string)
    requires c != '\'' && d != '\'' && Escape(s) == s
    ensures Escape([c, d] + s) == [c, d] + s
  {
    EscapePlain(d, s);
    EscapePlain(c, [d] + s);
    assert [c, d] + s == [c] + ([d] + s);
  }

  lemma {:induction false} HexHasNoQuotes(b: seq<byte>)
    ensures Escape(Hex(b)) == Hex(b)
    decreases |b|
  {
    if b != [] {
      HexHasNoQuotes(b[1..]);
      var h, l, rest := HexDigit(b[0] / 16), HexDigit(b[0] % 16), Hex(b[1..]);
      HexDigitReadsBack(b[0] / 16);
      HexDigitReadsBack(b[0] % 16);
      EscapeTwoPlain(h, l, rest);
    }
  }

  /** What may follow a field: the separator or the closing parenthesis. */
  predicate Delimited(tail: string) {
    StartsWith(tail, ", ") || StartsWith(tail, ")")
  }

  lemma DelimitedTail(tail: string)
    requires Delimited(tail)
    ensures !StartsWith(tail, "'") && !Continues(tail) && !StartsWith(tail, "::bytea") && !StartsWith(tail, "::jsonb")
  {
    assert tail[0] == ',' || tail[0] == ')';
  }

  lemma CastTail(cast: string, tail: string)
    requires cast == "::bytea" || cast == "::jsonb"
    ensures !StartsWith(cast + tail, "'") && !Continues(cast + tail)
    ensures StartsWith(cast + tail, cast) && (cast + tail)[7..] == tail
    ensures cast == "::jsonb" ==> !StartsWith(cast + tail, "::bytea")
  {
    assert (cast + tail)[0] == ':';
    assert (cast + tail)[2] == cast[2];
  }

  lemma QuotedIsNotNull(s: string, tail: string)
    ensures !StartsWith(Quote(s) + tail, "NULL")
  {
    assert (Quote(s) + tail)[0] == '\'' && "NULL"[0] == 'N';
  }

  lemma HexBodyUnescaped(b: seq<byte>)
    ensures Escape("\\x" + Hex(b)) == "\\x" + Hex(b)
  {
    HexHasNoQuotes(b);
    assert ("\\x" + Hex(b))[1..] == "x" + Hex(b) && ("x" + Hex(b))[1..] == Hex(b);
  }

  lemma CastReadsBack(v: string, cast: string, tail: string)
    requires cast == "::bytea" || cast == "::jsonb"
    ensures !StartsWith(Quote(v) + (cast + tail), "NULL")
    ensures ReadConstant(Quote(v) + (cast + tail)) == Some((v, cast + tail))
  {
    CastTail(cast, tail);
    QuotedIsNotNull(v, cast + tail);
    StringReadsBack(v, cast + tail);
  }

  lemma BytesCastBack(b: seq<byte>, tail: string)
    ensures ReadCast("\\x" + Hex(b), "::bytea" + tail) == Some((Bytes(b), tail))
  {
    var v := "\\x" + Hex(b);
    HexReadsBack(b);
    CastTail("::bytea", tail);
    assert v[2..] == Hex(b) && StartsWith(v, "\\x");
  }

  lemma QuotedFieldReads(v: string, cast: string, tail: string)
    requires cast == "::bytea" || cast == "::jsonb"
    ensures ReadField(Quote(v) + cast + tail) == ReadCast(v, cast + tail)
  {
    assert Quote(v) + cast + tail == Quote(v) + (cast + tail);
    CastReadsBack(v, cast, tail);
  }

  lemma PrintedBytes(b: seq<byte>)
    ensures Print(Bytes(b)) == Quote("\\x" + Hex(b)) + "::bytea"
  {
    HexBodyUnescaped(b);
  }

  lemma BytesReadBack(b: seq<byte>, tail: string)
    ensures ReadField(Print(Bytes(b)) + tail) == Some((Bytes(b), tail))
  {
    PrintedBytes(b);
    QuotedFieldReads("\\x" + Hex(b), "::bytea", tail);
    BytesCastBack(b, tail);
  }

  lemma JsonReadsBack(s: string, tail: string)
    ensures ReadField(Print(Json(s)) + tail) == Some((Json(s), tail))
  {
    QuotedFieldReads(s, "::jsonb", tail);
    CastTail("::jsonb", tail);
  }

  lemma FieldReadsBack(f: Field, tail: string)
    requires Delimited(tail)
    ensures ReadField(Print(f) + tail) == Some((f, tail))
  {
    DelimitedTail(tail);
    match f
    case Null => assert ("NULL" + tail)[4..] == tail;
    case Text(s) =>
      QuotedIsNotNull(s, tail);
      StringReadsBack(s, tail);
    case Bytes(b) => BytesReadBack(b, tail);
    case Json(s) => JsonReadsBack(s, tail);
  }

  /** Reading a field that is followed by a separator and more. */
  lemma ReadRowStep(f: Field, more: string)
    ensures ReadRow(Print(f) + (", " + more))
              == var r := ReadRow(more); if r.None? then None else Some(([f] + r.value.0, r.value.1))
  {
    FieldReadsBack(f, ", " + more);
    assert (", " + more)[2..] == more;
    assert |Print(f)| > 0;
  }

  lemma PrintRowStep(fs: seq<Field>, end: string)
    requires |fs| > 1
    ensures PrintRow(fs) + end == Print(fs[0]) + (", " + (PrintRow(fs[1..]) + end))
  {
    Regroup(Print(fs[0]), ", ", PrintRow(fs[1..]), end);
  }

  lemma Regroup(s: string, t: string, u: string, v: string)
    ensures s + t + u + v == s + (t + (u + v))
  {
  }

  lemma ReadLastField(f: Field, end: string)
    requires StartsWith(end, ")")
    ensures ReadRow(Print(f) + end) == Some(([f], end))
  {
    FieldReadsBack(f, end);
    assert end[0] == ')' && ", "[0] == ',';
  }

  /** A printed row reads back to the same fields, so no field can change another. */
  lemma {:induction false} RowReadsBack(fs: seq<Field>, end: string)
    requires fs != [] && StartsWith(end, ")")
    ensures ReadRow(PrintRow(fs) + end) == Some((fs, end))
    decreases |fs|
  {
    if |fs| == 1 {
      ReadLastField(fs[0], end);
      assert fs == [fs[0]];
    } else {
      RowReadsBack(fs[1..], end);
      ReadRowStep(fs[0], PrintRow(fs[1..]) + end);
      PrintRowStep(fs, end);
      assert fs == [fs[0]] + fs[1..];
    }
  }

  /** Two rows that print alike are the same row. */
  lemma PrintedRowsDiffer(fs: seq<Field>, gs: seq<Field>)
    requires fs != [] && gs != [] && PrintRow(fs) == PrintRow(gs)
    ensures fs == gs
  {
    RowReadsBack(fs, ")");
    RowReadsBack(gs, ")");
  }
}
