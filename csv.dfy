/**
 * The CSV export of `exportCSVFile` (script.js:952-991): a header line of the
 * first article's keys, then one line per article, each value written as its
 * string form and wrapped in double quotes (inner quotes doubled) when it holds
 * a quote or a comma. A reader for that format is defined alongside so that
 * the export can be shown to round-trip.
 */
module Csv {
  import opened Wrappers
  import opened Articles

  /** The value of a decimal digit, 0 for any other character. */
  function DigitValue(c: char): nat
  {
    if '0' <= c <= '9' then c as int - '0' as int else 0
  }

  /** The number a string of decimal digits denotes, read left to right. */
  function DigitsValue(d: string): nat
  {
    if d == [] then 0 else DigitsValue(d[..|d| - 1]) * 10 + DigitValue(d[|d| - 1])
  }

  /** `String(n)` for an integer: its decimal digits, without leading zeros. */
  function IntText(n: nat): (r: string)
    ensures |r| > 0
    ensures forall c :: c in r ==> '0' <= c <= '9'
    ensures DigitsValue(r) == n
    ensures r[0] == '0' ==> r == "0"
  {
    if n < 10 then [(n + '0' as int) as char]
    else
      var p := IntText(n / 10);
      var r := p + [((n % 10) + '0' as int) as char];
      assert r[..|r| - 1] == p;
      r
  }

  /** The number of halves a number text denotes: an optional `-`, digits, and an optional `.5`. */
  function HalvesValue(t: string): int
  {
    if t != [] && t[0] == '-' then -(UnsignedHalves(t[1..]) as int) else UnsignedHalves(t)
  }

  /** The number of halves of digits with an optional `.5`. */
  function UnsignedHalves(t: string): nat
  {
    if |t| >= 2 && t[|t| - 2..] == ".5" then 2 * DigitsValue(t[..|t| - 2]) + 1 else 2 * DigitsValue(t)
  }

  /** A non-empty run of decimal digits without a leading zero. */
  predicate PlainDigits(d: string)
  {
    d != [] && (forall k :: 0 <= k < |d| ==> '0' <= d[k] <= '9') && (d[0] == '0' ==> d == "0")
  }

  /** `t` without a trailing `.5`. */
  function WholePart(t: string): string
  {
    if |t| >= 2 && t[|t| - 2..] == ".5" then t[..|t| - 2] else t
  }

  /** The form of `String(x)` for a multiple of one half: an optional `-`, plain digits, an optional `.5`. */
  predicate NumberForm(t: string)
  {
    PlainDigits(WholePart(if t != [] && t[0] == '-' then t[1..] else t))
  }

  /** `String(x)` for a number counted in halves: `"2"`, `"2.5"`, `"-0.5"`. */
  function NumText(halves: int): (r: string)
    ensures |r| > 0
    ensures forall c :: c in r ==> c == '-' || c == '.' || '0' <= c <= '9'
    ensures NumberForm(r)
    ensures r[0] == '-' <==> halves < 0
    ensures halves % 2 == 0 <==> '.' !in r
    ensures HalvesValue(r) == halves
    decreases if halves < 0 then 1 else 0
  {
    if halves < 0 then
      var u := NumText(-halves);
      NegatedText(u);
      "-" + u
    else if halves % 2 == 0 then
      WholeText(halves / 2);
      IntText(halves / 2)
    else
      HalfText(halves / 2);
      IntText(halves / 2) + ".5"
  }

  /** `String(n)` of a whole number has the number form, no sign and no point, and reads back as `2 * n` halves. */
  lemma {:induction false} WholeText(n: nat)
    ensures var p := IntText(n);
      NumberForm(p) && p[0] != '-' && '.' !in p && HalvesValue(p) == 2 * n
  {
    var p := IntText(n);
    assert forall k :: 0 <= k < |p| ==> '0' <= p[k] <= '9' by {
      assert forall k :: 0 <= k < |p| ==> p[k] in p;
    }
    assert PlainDigits(p);
    assert !(|p| >= 2 && p[|p| - 2..] == ".5") by {
      if |p| >= 2 {
        assert p[|p| - 2..][0] == p[|p| - 2];
      }
    }
    assert WholePart(p) == p;
    assert p[0] != '-' && HalvesValue(p) == UnsignedHalves(p) == 2 * n;
  }

  /** `String(n + 0.5)` has the number form, no sign and a point, and reads back as `2 * n + 1` halves. */
  lemma {:induction false} HalfText(n: nat)
    ensures var r := IntText(n) + ".5";
      NumberForm(r) && r[0] != '-' && '.' in r && HalvesValue(r) == 2 * n + 1
      && forall c :: c in r ==> c == '.' || '0' <= c <= '9'
  {
    var p := IntText(n);
    assert PlainDigits(p) by {
      assert forall k :: 0 <= k < |p| ==> p[k] in p;
    }
    var r := p + ".5";
    assert r[|r| - 2..] == ".5" && r[..|r| - 2] == p;
    assert WholePart(r) == p;
    assert r[0] == p[0] && p[0] in p;
    assert r[|r| - 2] == '.';
  }

  /** A minus sign in front of an unsigned number text negates it and keeps the form. */
  lemma {:induction false} NegatedText(u: string)
    requires u != [] && u[0] != '-' && NumberForm(u)
    ensures NumberForm("-" + u) && HalvesValue("-" + u) == -HalvesValue(u)
    ensures forall c :: c in "-" + u && c != '-' ==> c in u
  {
    assert ("-" + u)[1..] == u;
  }

  /** Plain digits starting with a non-zero digit denote at least 1. */
  lemma {:induction false} DigitsValuePositive(d: string)
    requires d != [] && '1' <= d[0] <= '9' && forall k :: 0 <= k < |d| ==> '0' <= d[k] <= '9'
    ensures DigitsValue(d) >= 1
    decreases |d|
  {
    if |d| > 1 {
      DigitsValuePositive(d[..|d| - 1]);
    }
  }

  /** The converse of `IntText`: plain digits are the text of the number they denote. */
  lemma {:induction false} PlainDigitsAreIntText(d: string)
    requires PlainDigits(d)
    ensures d == IntText(DigitsValue(d))
    decreases |d|
  {
    var last := d[|d| - 1];
    if |d| > 1 {
      var q := d[..|d| - 1];
      assert q[0] == d[0] && d[0] != '0';
      PlainDigitsAreIntText(q);
      DigitsValuePositive(q);
      var v := DigitsValue(d);
      assert v / 10 == DigitsValue(q) && v % 10 == DigitValue(last);
      assert d == q + [last];
    }
  }

  /**
   * The converse of `NumText`: a text of the number form that starts with `-`
   * exactly when it denotes a negative number is `NumText` of that number.
   */
  lemma {:induction false} NumberFormIsNumText(t: string)
    requires NumberForm(t) && (t != [] && t[0] == '-' <==> HalvesValue(t) < 0)
    ensures t == NumText(HalvesValue(t))
  {
    var neg := t != [] && t[0] == '-';
    var u := if neg then t[1..] else t;
    UnsignedIsNumText(u);
    if neg {
      var h: int := UnsignedHalves(u);
      assert t == "-" + u && HalvesValue(t) == -h;
      NumTextNegative(h);
    } else {
      assert HalvesValue(t) == UnsignedHalves(u);
    }
  }

  /** The unsigned case of `NumberFormIsNumText`. */
  lemma {:induction false} UnsignedIsNumText(u: string)
    requires PlainDigits(WholePart(u))
    ensures u == NumText(UnsignedHalves(u))
  {
    var w := WholePart(u);
    if |u| >= 2 && u[|u| - 2..] == ".5" {
      assert u == w + ".5" && UnsignedHalves(u) == 2 * DigitsValue(w) + 1;
      HalfFormIsNumText(w);
    } else {
      assert u == w && UnsignedHalves(u) == 2 * DigitsValue(w);
      WholeFormIsNumText(w);
    }
  }

  /** Plain digits are `NumText` of twice their value. */
  lemma {:induction false} WholeFormIsNumText(w: string)
    requires PlainDigits(w)
    ensures w == NumText(2 * DigitsValue(w))
  {
    PlainDigitsAreIntText(w);
    NumTextEven(w, DigitsValue(w));
  }

  /** Plain digits followed by `.5` are `NumText` of twice their value plus one. */
  lemma {:induction false} HalfFormIsNumText(w: string)
    requires PlainDigits(w)
    ensures w + ".5" == NumText(2 * DigitsValue(w) + 1)
  {
    PlainDigitsAreIntText(w);
    NumTextOdd(w, DigitsValue(w));
  }

  /** One step of `NumText` on an even count of halves. */
  lemma {:induction false} NumTextEven(p: string, k: nat)
    requires p == IntText(k)
    ensures NumText(2 * k) == p
  {
    assert (2 * k) % 2 == 0 && (2 * k) / 2 == k;
  }

  /** One step of `NumText` on an odd count of halves. */
  lemma {:induction false} NumTextOdd(p: string, k: nat)
    requires p == IntText(k)
    ensures NumText(2 * k + 1) == p + ".5"
  {
    assert (2 * k + 1) % 2 == 1 && (2 * k + 1) / 2 == k;
  }

  /** One step of `NumText` on a negative count of halves. */
  lemma {:induction false} NumTextNegative(h: int)
    requires h > 0
    ensures NumText(-h) == "-" + NumText(h)
  {
  }

  /** The text a cell starts from: `''` for a missing or null value, otherwise `String(value)`. */
  function CellText(item: Article, header: string): string
  {
    if header !in item.fields then ""
    else match item.fields[header]
      case Null => ""
      case Str(s) => s
      case Num(h) => NumText(h)
  }

  /** Every double quote written twice (`replace(/"/g, '""')`). */
  function DoubleQuotes(s: string): (r: string)
    ensures forall c :: c != '"' ==> (c in r <==> c in s)
    ensures |r| >= |s|
    ensures '"' !in s ==> r == s
  {
    if s == [] then []
    else (if s[0] == '"' then "\"\"" else [s[0]]) + DoubleQuotes(s[1..])
  }

  /** A cell as written: quoted when it holds a quote or a comma. */
  function Escape(v: string): (r: string)
    ensures '"' !in v && ',' !in v ==> r == v
    ensures '"' in v || ',' in v ==> |r| >= 2 && r[0] == '"' && r[|r| - 1] == '"'
    ensures forall c :: c != '"' && c != ',' ==> (c in r <==> c in v)
  {
    if '"' in v || ',' in v then "\"" + DoubleQuotes(v) + "\"" else v
  }

  /** `Array.prototype.join(',')`. */
  function JoinComma(parts: seq<string>): string
  {
    if |parts| == 0 then ""
    else if |parts| == 1 then parts[0]
    else parts[0] + "," + JoinComma(parts[1..])
  }

  /** The cells of one article under `headers`, before escaping. */
  function CellTexts(item: Article, headers: seq<string>): (r: seq<string>)
    ensures |r| == |headers|
    ensures forall j :: 0 <= j < |headers| && (headers[j] !in item.fields || item.fields[headers[j]].Null?) ==> r[j] == ""
    ensures forall j :: 0 <= j < |headers| && headers[j] in item.fields && item.fields[headers[j]].Str? ==>
              r[j] == item.fields[headers[j]].s
    ensures forall j :: 0 <= j < |headers| && headers[j] in item.fields && item.fields[headers[j]].Num? ==>
              r[j] == NumText(item.fields[headers[j]].halves) && HalvesValue(r[j]) == item.fields[headers[j]].halves
  {
    seq(|headers|, j requires 0 <= j < |headers| => CellText(item, headers[j]))
  }

  /** One data line, without its line break. */
  function Row(item: Article, headers: seq<string>): string
  {
    var cells := CellTexts(item, headers);
    JoinComma(seq(|cells|, j requires 0 <= j < |cells| => Escape(cells[j])))
  }

  /** The data lines for `items`, each followed by a line break. */
  function Rows(items: seq<Article>, headers: seq<string>): string
  {
    if items == [] then "" else Rows(items[..|items| - 1], headers) + Row(items[|items| - 1], headers) + "\n"
  }

  /** The whole file: `headers.join(',') + '\n'` followed by the rows. */
  function Document(data: seq<Article>): (r: string)
    requires |data| > 0
    ensures |r| > |JoinComma(data[0].keys)| && r[..|JoinComma(data[0].keys)| + 1] == JoinComma(data[0].keys) + "\n"
    ensures r[|r| - 1] == '\n'
  {
    JoinComma(data[0].keys) + "\n" + Rows(data, data[0].keys)
  }

  /** Builds the file text line by line, as the `forEach` over the data does. */
  method ExportCsv(data: seq<Article>) returns (csv: string)
    requires |data| > 0
    ensures csv == Document(data)
  {
    var headers := data[0].keys;
    csv := JoinComma(headers) + "\n";
    var i := 0;
    while i < |data|
      invariant 0 <= i <= |data|
      invariant csv == JoinComma(headers) + "\n" + Rows(data[..i], headers)
    {
      RowsStep(JoinComma(headers) + "\n", data, i, headers);
      csv := csv + Row(data[i], headers) + "\n";
      i := i + 1;
    }
    assert data[..i] == data;
  }

  /** One more data line extends the text of the first `i` rows. */
  lemma RowsStep(head: string, data: seq<Article>, i: nat, headers: seq<string>)
    requires i < |data|
    ensures head + Rows(data[..i], headers) + Row(data[i], headers) + "\n" == head + Rows(data[..i + 1], headers)
  {
    assert data[..i + 1][..i] == data[..i];
  }

  // ---------------------------------------------------------------------
  // Reading the file back

  /** The body of a quoted cell after its opening quote: the content and what follows the closing quote. */
  function ReadQuoted(s: string): (r: Option<(string, string)>)
    ensures r.Some? ==> |r.value.1| < |s|
    decreases |s|
  {
    if s == [] then None
    else if s[0] == '"' then
      if |s| > 1 && s[1] == '"' then
        match ReadQuoted(s[2..])
        case None => None
        case Some(p) => Some(("\"" + p.0, p.1))
      else Some(([], s[1..]))
    else
      match ReadQuoted(s[1..])
      case None => None
      case Some(p) => Some(([s[0]] + p.0, p.1))
  }

  /** An unquoted cell: everything up to the next comma. */
  function ReadBare(s: string): (r: (string, string))
    ensures |r.1| <= |s|
    ensures r.1 == [] || r.1[0] == ','
  {
    if s == [] || s[0] == ',' then ([], s)
    else var p := ReadBare(s[1..]); ([s[0]] + p.0, p.1)
  }

  /** One cell and the text after it. */
  function ReadCell(s: string): (r: Option<(string, string)>)
    ensures r.Some? ==> |r.value.1| <= |s|
  {
    if |s| > 0 && s[0] == '"' then ReadQuoted(s[1..]) else Some(ReadBare(s))
  }

  /** The cells of one line, or `None` when the line is not well formed. */
  function ParseLine(s: string): Option<seq<string>>
    decreases |s|
  {
    match ReadCell(s)
    case None => None
    case Some(p) =>
      if p.1 == [] then Some([p.0])
      else if p.1[0] == ',' then
        match ParseLine(p.1[1..])
        case None => None
        case Some(rest) => Some([p.0] + rest)
      else None
  }

  /** Where the first line of `s` ends: the first line break, or the end of the text. */
  function LineEnd(s: string): (r: nat)
    ensures r <= |s|
    ensures '\n' !in s[..r]
    ensures r < |s| ==> s[r] == '\n'
  {
    if s == [] || s[0] == '\n' then 0
    else
      var r := 1 + LineEnd(s[1..]);
      assert s[..r] == [s[0]] + s[1..][..r - 1];
      r
  }

  /** The lines of a text, each ended by a line break except possibly the last. */
  function SplitLines(s: string): seq<string>
    decreases |s|
  {
    if s == [] then []
    else
      var i := LineEnd(s);
      [s[..i]] + (if i < |s| then SplitLines(s[i + 1..]) else [])
  }

  /** The records of a CSV text, one per line. */
  function ParseCsv(text: string): seq<Option<seq<string>>>
  {
    var lines := SplitLines(text);
    seq(|lines|, i requires 0 <= i < |lines| => ParseLine(lines[i]))
  }

  // ---------------------------------------------------------------------
  // The export round-trips

  /** Every cell escaped. */
  function EscapeAll(cells: seq<string>): (r: seq<string>)
    ensures |r| == |cells|
  {
    seq(|cells|, j requires 0 <= j < |cells| => Escape(cells[j]))
  }

  /** Lines each followed by a line break. */
  function Unlines(lines: seq<string>): string
  {
    if lines == [] then "" else lines[0] + "\n" + Unlines(lines[1..])
  }

  /** The data lines of the export, one per article. */
  function RowLines(items: seq<Article>, headers: seq<string>): (r: seq<string>)
    ensures |r| == |items|
  {
    seq(|items|, i requires 0 <= i < |items| => Row(items[i], headers))
  }

  lemma {:induction false} UnlinesSnoc(lines: seq<string>, l: string)
    ensures Unlines(lines + [l]) == Unlines(lines) + l + "\n"
    decreases |lines|
  {
    if lines != [] {
      assert (lines + [l])[1..] == lines[1..] + [l];
      UnlinesSnoc(lines[1..], l);
    }
  }

  lemma {:induction false} RowsAreLines(items: seq<Article>, headers: seq<string>)
    ensures Rows(items, headers) == Unlines(RowLines(items, headers))
    decreases |items|
  {
    if items != [] {
      var init, last := items[..|items| - 1], items[|items| - 1];
      RowsAreLines(init, headers);
      RowLinesSnoc(items, headers);
      UnlinesSnoc(RowLines(init, headers), Row(last, headers));
    }
  }

  /** The lines of all items are the lines of all but the last, then the last one's. */
  lemma RowLinesSnoc(items: seq<Article>, headers: seq<string>)
    requires items != []
    ensures RowLines(items, headers) == RowLines(items[..|items| - 1], headers) + [Row(items[|items| - 1], headers)]
  {
    var init, last := items[..|items| - 1], items[|items| - 1];
    var a, b := RowLines(items, headers), RowLines(init, headers) + [Row(last, headers)];
    forall j | 0 <= j < |a|
      ensures a[j] == b[j]
    {
      if j < |init| {
        assert init[j] == items[j];
      }
    }
  }

  /** A quoted body is read back to the original cell, up to the closing quote. */
  lemma {:induction false} ReadQuotedDoubled(v: string, tail: string)
    requires tail == [] || tail[0] != '"'
    ensures ReadQuoted(DoubleQuotes(v) + "\"" + tail) == Some((v, tail))
    decreases |v|
  {
    if v == [] {
      var s := DoubleQuotes(v) + "\"" + tail;
      assert s == "\"" + tail;
      assert s[1..] == tail;
    } else {
      ReadQuotedDoubled(v[1..], tail);
      ReadQuotedDoubledStep(v, tail);
    }
  }

  /** Reading back the first character of `v`, given that the rest reads back. */
  lemma {:induction false} ReadQuotedDoubledStep(v: string, tail: string)
    requires v != [] && (tail == [] || tail[0] != '"')
    requires ReadQuoted(DoubleQuotes(v[1..]) + "\"" + tail) == Some((v[1..], tail))
    ensures ReadQuoted(DoubleQuotes(v) + "\"" + tail) == Some((v, tail))
  {
    var inner := DoubleQuotes(v[1..]) + "\"" + tail;
    if v[0] == '"' {
      assert DoubleQuotes(v) + "\"" + tail == "\"\"" + inner by {
        assert DoubleQuotes(v) == "\"\"" + DoubleQuotes(v[1..]);
      }
      ReadQuotedPair(inner, v[1..], tail);
      assert "\"" + v[1..] == v;
    } else {
      assert DoubleQuotes(v) + "\"" + tail == [v[0]] + inner by {
        assert DoubleQuotes(v) == [v[0]] + DoubleQuotes(v[1..]);
      }
      ReadQuotedChar(v[0], inner, v[1..], tail);
      assert [v[0]] + v[1..] == v;
    }
  }

  /** A doubled quote inside a quoted cell reads as one quote. */
  lemma ReadQuotedPair(inner: string, w: string, tail: string)
    requires ReadQuoted(inner) == Some((w, tail))
    ensures ReadQuoted("\"\"" + inner) == Some(("\"" + w, tail))
  {
    var s := "\"\"" + inner;
    assert s[0] == '"' && s[1] == '"' && s[2..] == inner;
  }

  /** Any other character inside a quoted cell reads as itself. */
  lemma ReadQuotedChar(c: char, inner: string, w: string, tail: string)
    requires c != '"' && ReadQuoted(inner) == Some((w, tail))
    ensures ReadQuoted([c] + inner) == Some(([c] + w, tail))
  {
    var s := [c] + inner;
    assert s[0] == c && s[1..] == inner;
  }

  lemma {:induction false} ReadBareOf(v: string, tail: string)
    requires ',' !in v
    requires tail == [] || tail[0] == ','
    ensures ReadBare(v + tail) == (v, tail)
    decreases |v|
  {
    if v != [] {
      ReadBareOf(v[1..], tail);
      assert (v + tail)[0] == v[0] && v[0] != ',';
      assert (v + tail)[1..] == v[1..] + tail;
      assert [v[0]] + v[1..] == v;
    } else {
      assert v + tail == tail;
    }
  }

  /** An escaped cell is read back to the original text, and the rest of the line is left. */
  lemma ReadCellEscaped(v: string, tail: string)
    requires tail == [] || tail[0] == ','
    ensures ReadCell(Escape(v) + tail) == Some((v, tail))
  {
    var s := Escape(v) + tail;
    if '"' in v || ',' in v {
      var body := DoubleQuotes(v) + "\"" + tail;
      assert s == "\"" + body;
      assert s[0] == '"' && s[1..] == body;
      ReadQuotedDoubled(v, tail);
    } else {
      assert s == v + tail;
      if v != [] {
        assert s[0] == v[0] && v[0] in v;
      }
      ReadBareOf(v, tail);
    }
  }

  lemma ParseLineStep(line: string, cell: string, rest: string, cells: seq<string>)
    requires ReadCell(line) == Some((cell, "," + rest))
    requires ParseLine(rest) == Some(cells)
    ensures ParseLine(line) == Some([cell] + cells)
  {
    assert ("," + rest)[1..] == rest;
  }

  /** Any non-empty list of cells, escaped and joined, reads back as the same cells. */
  lemma {:induction false} LineRoundTrip(cells: seq<string>)
    requires |cells| > 0
    ensures ParseLine(JoinComma(EscapeAll(cells))) == Some(cells)
    decreases |cells|
  {
    var e := EscapeAll(cells);
    if |cells| == 1 {
      ReadCellEscaped(cells[0], []);
      assert e[0] + [] == e[0];
      assert [cells[0]] == cells;
    } else {
      LineRoundTrip(cells[1..]);
      LineRoundTripStep(cells);
    }
  }

  /** The step of `LineRoundTrip`: the first cell is read back and the rest of the line parses as the other cells. */
  lemma LineRoundTripStep(cells: seq<string>)
    requires |cells| > 1
    requires ParseLine(JoinComma(EscapeAll(cells[1..]))) == Some(cells[1..])
    ensures ParseLine(JoinComma(EscapeAll(cells))) == Some(cells)
  {
    var e := EscapeAll(cells);
    var rest := JoinComma(e[1..]);
    var line := JoinComma(e);
    assert e[1..] == EscapeAll(cells[1..]);
    assert line == e[0] + ("," + rest);
    assert ReadCell(line) == Some((cells[0], "," + rest)) by {
      ReadCellEscaped(cells[0], "," + rest);
    }
    ParseLineStep(line, cells[0], rest, cells[1..]);
    assert [cells[0]] + cells[1..] == cells;
  }

  lemma {:induction false} JoinNoBreak(parts: seq<string>)
    requires forall j :: 0 <= j < |parts| ==> '\n' !in parts[j]
    ensures '\n' !in JoinComma(parts)
    decreases |parts|
  {
    if |parts| > 1 {
      JoinNoBreak(parts[1..]);
    }
  }

  /** A line with no line break in it ends at the break written after it. */
  lemma {:induction false} LineEndAfter(l: string, rest: string)
    requires '\n' !in l
    ensures LineEnd(l + "\n" + rest) == |l|
    decreases |l|
  {
    var s := l + "\n" + rest;
    if l != [] {
      assert s[0] == l[0] && l[0] in l;
      assert s[1..] == l[1..] + "\n" + rest;
      assert forall c :: c in l[1..] ==> c in l;
      LineEndAfter(l[1..], rest);
    }
  }

  lemma {:induction false} SplitUnlines(lines: seq<string>)
    requires forall j :: 0 <= j < |lines| ==> '\n' !in lines[j]
    ensures SplitLines(Unlines(lines)) == lines
    decreases |lines|
  {
    if lines != [] {
      var s, l, rest := Unlines(lines), lines[0], Unlines(lines[1..]);
      assert SplitLines(rest) == lines[1..] by {
        SplitUnlines(lines[1..]);
      }
      assert LineEnd(s) == |l| && s[..|l|] == l && s[|l| + 1..] == rest by {
        assert s == l + "\n" + rest;
        LineEndAfter(l, rest);
      }
      assert [l] + lines[1..] == lines;
    }
  }

  /** The export is the header line and the data lines, each ended by a line break. */
  lemma DocumentLines(data: seq<Article>)
    requires |data| > 0
    ensures Document(data) == Unlines([JoinComma(data[0].keys)] + RowLines(data, data[0].keys))
  {
    var lines := [JoinComma(data[0].keys)] + RowLines(data, data[0].keys);
    RowsAreLines(data, data[0].keys);
    assert lines[1..] == RowLines(data, data[0].keys);
  }

  /** Reading back lines written without inner line breaks parses each line on its own. */
  lemma ParseUnlines(lines: seq<string>)
    requires forall j :: 0 <= j < |lines| ==> '\n' !in lines[j]
    ensures ParseCsv(Unlines(lines)) == seq(|lines|, i requires 0 <= i < |lines| => ParseLine(lines[i]))
  {
    SplitUnlines(lines);
  }

  /**
   * The export reads back as the header line followed by one record per
   * article holding that article's values under those headers, provided the
   * headers are plain (no comma, quote or line break) and no value holds a
   * line break.
   */
  lemma ExportRoundTrip(data: seq<Article>)
    requires |data| > 0 && |data[0].keys| > 0
    requires forall k :: k in data[0].keys ==> ',' !in k && '"' !in k && '\n' !in k
    requires forall i, k :: 0 <= i < |data| && k in data[0].keys ==> '\n' !in CellText(data[i], k)
    ensures ParseCsv(Document(data)) ==
      [Some(data[0].keys)] + seq(|data|, i requires 0 <= i < |data| => Some(CellTexts(data[i], data[0].keys)))
  {
    var keys := data[0].keys;
    var rows := RowLines(data, keys);
    var lines := [JoinComma(keys)] + rows;
    var expected := [Some(keys)] + seq(|data|, i requires 0 <= i < |data| => Some(CellTexts(data[i], keys)));
    var parsed := seq(|lines|, i requires 0 <= i < |lines| => ParseLine(lines[i]));
    forall i | 0 <= i < |lines|
      ensures '\n' !in lines[i] && parsed[i] == expected[i]
    {
      if i == 0 {
        assert EscapeAll(keys) == keys;
        LineRoundTrip(keys);
        JoinNoBreak(keys);
      } else {
        var cells := CellTexts(data[i - 1], keys);
        forall j | 0 <= j < |cells| ensures '\n' !in EscapeAll(cells)[j] {
          assert cells[j] == CellText(data[i - 1], keys[j]);
          assert keys[j] in keys;
        }
        JoinNoBreak(EscapeAll(cells));
        LineRoundTrip(cells);
      }
    }
    assert parsed == expected;
    assert ParseCsv(Document(data)) == parsed by {
      DocumentLines(data);
      ParseUnlines(lines);
    }
  }

  /** A single plain cell reads back as itself. */
  lemma PlainLine(v: string)
    requires ',' !in v && '"' !in v
    ensures ParseLine(v) == Some([v])
  {
    ReadBareOf(v, []);
    assert v + [] == v;
  }

  /**
   * A value holding a line break is written unquoted, so the line break
   * splits one article's line into two records.
   */
  lemma LineBreakSplitsRecord(key: string, a: string, b: string)
    requires forall c :: c in key + a + b ==> c != ',' && c != '"' && c != '\n'
    ensures var data := [Article([key], map[key := Str(a + "\n" + b)])];
      ParseCsv(Document(data)) == [Some([key]), Some([a]), Some([b])]
  {
    var lines := [key, a, b];
    assert forall c :: c in key ==> c in key + a + b;
    assert forall c :: c in a ==> c in key + a + b;
    assert forall c :: c in b ==> c in key + a + b;
    SplitValueDocument(key, a, b);
    assert ParseCsv(Unlines(lines)) == [ParseLine(key), ParseLine(a), ParseLine(b)] by {
      ParseUnlines(lines);
    }
    PlainLine(key);
    PlainLine(a);
    PlainLine(b);
  }

  /** The export of one article whose only value is `a`, a line break and `b`, written unquoted. */
  lemma SplitValueDocument(key: string, a: string, b: string)
    requires '"' !in a && ',' !in a && '"' !in b && ',' !in b
    ensures Document([Article([key], map[key := Str(a + "\n" + b)])]) == Unlines([key, a, b])
  {
    var v := a + "\n" + b;
    var data := [Article([key], map[key := Str(v)])];
    assert '"' !in v && ',' !in v by {
      assert forall c :: c in v ==> c in a || c == '\n' || c in b;
    }
    DocumentLines(data);
    assert RowLines(data, [key]) == [v] by {
      assert CellTexts(data[0], [key]) == [v];
      assert EscapeAll([v]) == [v];
    }
    assert JoinComma([key]) == key;
    assert Unlines([v]) == v + "\n" + Unlines([]);
    assert Unlines([b]) == b + "\n" + Unlines([]);
    assert Unlines([a, b]) == a + "\n" + Unlines([b]);
    assert [a, b][1..] == [b];
    assert [key, a, b][1..] == [a, b];
  }
}
