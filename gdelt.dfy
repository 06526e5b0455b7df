/**
 * The fetch script src/gdelt.py: argument defaults and the timespan whitelist,
 * duplicate removal by url and title, cleaning of the text columns, the
 * relevance score and the final ordering. The GDELT client is a parameter that
 * answers a filter with a table or fails; a table row maps column names to cell
 * text, and a column missing from a row is a missing value (pandas' NaN).
 * Scores are counted in half-points so that the excerpt's 0.5 per term stays
 * exact: the script's 5, 2, 3, 1, 2, 0.5 and cap 10 are 10, 4, 6, 2, 4, 1 and
 * cap 20 here.
 */
module Gdelt {
  import opened Wrappers
  import Text
  import Timespan
  import Sorting

  // ---------------------------------------------------------------------------
  // Arguments

  const DefaultKeyword: string := "earthquake"

  /** `num_records` of the filter. */
  const MaxRecords: nat := 250

  datatype Args = Args(keyword: string, timespan: string, country: Option<string>)

  /** `args[i].strip()` when it exists and is not blank. */
  function Arg(argv: seq<string>, i: nat): (r: Option<string>)
    ensures r.Some? <==> i < |argv| && Text.Trim(argv[i], Text.PySpace) != []
    ensures r.Some? ==> r.value == Text.Trim(argv[i], Text.PySpace)
    ensures r.None? <==> i >= |argv| || Text.AllSpace(argv[i], Text.PySpace)
    ensures r.Some? ==> r.value != [] && !Text.PySpace(r.value[0]) && !Text.PySpace(r.value[|r.value| - 1])
  {
    if i < |argv| && Text.Trim(argv[i], Text.PySpace) != [] then Some(Text.Trim(argv[i], Text.PySpace)) else None
  }

  /** The arguments after the script name, defaulted and whitelisted. */
  function ParseArgs(argv: seq<string>): (a: Args)
    ensures a.keyword != [] && a.timespan in Timespan.Allowed
    ensures a.country.Some? ==> a.country.value != []
    ensures |argv| > 0 && Text.Trim(argv[0], Text.PySpace) != [] ==> a.keyword == Text.Trim(argv[0], Text.PySpace)
    ensures |argv| == 0 || Text.Trim(argv[0], Text.PySpace) == [] ==> a.keyword == DefaultKeyword
    ensures |argv| > 1 && Text.Trim(argv[1], Text.PySpace) in Timespan.Allowed ==> a.timespan == Text.Trim(argv[1], Text.PySpace)
    ensures !(|argv| > 1 && Text.Trim(argv[1], Text.PySpace) in Timespan.Allowed) ==> a.timespan == Timespan.Default
    ensures a.country.None? <==> |argv| <= 2 || Text.Trim(argv[2], Text.PySpace) == []
    ensures a.country.Some? ==> a.country.value == Text.Trim(argv[2], Text.PySpace)
  {
    Args(Arg(argv, 0).GetOr(DefaultKeyword), Timespan.Normalize(Arg(argv, 1).GetOr(Timespan.Default)), Arg(argv, 2))
  }

  /** The command line that hands `a` to the script again. */
  function ArgvOf(a: Args): seq<string>
  {
    if a.country.Some? then [a.keyword, a.timespan, a.country.value] else [a.keyword, a.timespan]
  }

  /** The whitelisted windows have no surrounding white space. */
  lemma AllowedUnpadded(w: string)
    requires w in Timespan.Allowed
    ensures Text.Trim(w, Text.PySpace) == w
  {
    assert w == "1h" || w == "6h" || w == "24h" || w == "3d" || w == "7d";
    assert '0' <= w[0] <= '9' && 'a' <= w[|w| - 1] <= 'z';
    Text.TrimUnpadded(w, Text.PySpace);
  }

  /** Parsing one argument that is already stripped and not blank gives it back. */
  lemma ArgStable(v: seq<string>, i: nat, x: string)
    requires i < |v| && v[i] == x && x != [] && Text.Trim(x, Text.PySpace) == x
    ensures Arg(v, i) == Some(x)
  {
  }

  lemma KeywordStable(argv: seq<string>)
    ensures Arg(ArgvOf(ParseArgs(argv)), 0) == Some(ParseArgs(argv).keyword)
  {
    if Arg(argv, 0).Some? {
      Text.TrimIdempotent(argv[0], Text.PySpace);
    } else {
      Text.TrimUnpadded(DefaultKeyword, Text.PySpace);
    }
    var a := ParseArgs(argv);
    ArgStable(ArgvOf(a), 0, a.keyword);
  }

  lemma TimespanStable(argv: seq<string>)
    ensures Arg(ArgvOf(ParseArgs(argv)), 1) == Some(ParseArgs(argv).timespan)
  {
    var a := ParseArgs(argv);
    AllowedUnpadded(a.timespan);
    ArgStable(ArgvOf(a), 1, a.timespan);
  }

  lemma CountryStable(argv: seq<string>)
    ensures Arg(ArgvOf(ParseArgs(argv)), 2) == ParseArgs(argv).country
  {
    var a := ParseArgs(argv);
    if a.country.Some? {
      Text.TrimIdempotent(argv[2], Text.PySpace);
      ArgStable(ArgvOf(a), 2, a.country.value);
    }
  }

  /** Parsed arguments are a fixed point: passing them back reproduces them. */
  lemma ParseArgsStable(argv: seq<string>)
    ensures ParseArgs(ArgvOf(ParseArgs(argv))) == ParseArgs(argv)
  {
    KeywordStable(argv);
    TimespanStable(argv);
    CountryStable(argv);
  }

  /** The GDELT search filter the script builds. */
  datatype Filter = Filter(keyword: string, timespan: string, numRecords: nat, country: Option<string>)

  function FilterFor(a: Args): Filter
  {
    Filter(a.keyword, a.timespan, MaxRecords, a.country)
  }

  // ---------------------------------------------------------------------------
  // Tables

  /** One row: column name to cell text; an absent column is a missing value. */
  type Row = map<string, string>

  datatype Table = Table(columns: set<string>, rows: seq<Row>)

  /** The cell as pandas compares it in `drop_duplicates`: missing values are equal to each other. */
  function Key(row: Row, column: string): Option<string>
  {
    if column in row then Some(row[column]) else None
  }

  /** The keys of `column` that occur in `rows`. */
  function KeySet(rows: seq<Row>, column: string): set<Option<string>>
  {
    set i | 0 <= i < |rows| :: Key(rows[i], column)
  }

  lemma KeySetSnoc(rows: seq<Row>, x: Row, column: string)
    ensures KeySet(rows + [x], column) == KeySet(rows, column) + {Key(x, column)}
  {
    var ys := rows + [x];
    assert forall i :: 0 <= i < |rows| ==> ys[i] == rows[i];
    assert Key(ys[|rows|], column) == Key(x, column);
  }

  /** `drop_duplicates(subset=[column])`: the first row of each key, in order. */
  function DropDuplicates(rows: seq<Row>, column: string): (r: seq<Row>)
    ensures forall i, j :: 0 <= i < j < |r| ==> Key(r[i], column) != Key(r[j], column)
    ensures forall x :: x in r ==> x in rows
    ensures KeySet(r, column) == KeySet(rows, column)
  {
    if rows == [] then []
    else
      var init := rows[..|rows| - 1];
      var last := rows[|rows| - 1];
      var r0 := DropDuplicates(init, column);
      assert rows == init + [last];
      KeySetSnoc(init, last, column);
      if Key(last, column) in KeySet(r0, column) then r0
      else
        KeySetSnoc(r0, last, column);
        assert forall j :: 0 <= j < |r0| ==> Key(r0[j], column) in KeySet(r0, column);
        r0 + [last]
  }

  /** No earlier row has the same key as row `i`. */
  ghost predicate FirstOfKey(rows: seq<Row>, column: string, i: int)
    requires 0 <= i < |rows|
  {
    forall k :: 0 <= k < i ==> Key(rows[k], column) != Key(rows[i], column)
  }

  /** The rows kept are the first of their key: a later duplicate never replaces an earlier row. */
  lemma {:induction false} DropDuplicatesKeepsFirst(rows: seq<Row>, column: string)
    ensures forall j :: 0 <= j < |DropDuplicates(rows, column)| ==>
      exists i :: 0 <= i < |rows| && rows[i] == DropDuplicates(rows, column)[j] && FirstOfKey(rows, column, i)
  {
    if rows != [] {
      var init := rows[..|rows| - 1];
      var last := rows[|rows| - 1];
      var r0 := DropDuplicates(init, column);
      var r := DropDuplicates(rows, column);
      DropDuplicatesKeepsFirst(init, column);
      forall j | 0 <= j < |r0| ensures exists i :: 0 <= i < |rows| && rows[i] == r0[j] && FirstOfKey(rows, column, i) {
        var i :| 0 <= i < |init| && init[i] == r0[j] && FirstOfKey(init, column, i);
        assert rows[i] == init[i];
        assert FirstOfKey(rows, column, i);
      }
      assert r == r0 || r == r0 + [last];
      assert r != r0 ==> FirstOfKey(rows, column, |rows| - 1) by {
        if r != r0 {
          forall k | 0 <= k < |rows| - 1 ensures Key(rows[k], column) != Key(last, column) {
            assert Key(init[k], column) in KeySet(init, column);
          }
        }
      }
      forall j | 0 <= j < |r| ensures exists i :: 0 <= i < |rows| && rows[i] == r[j] && FirstOfKey(rows, column, i) {
        if j < |r0| {
          assert r[j] == r0[j];
        } else {
          assert r[j] == rows[|rows| - 1];
        }
      }
    } else {
      assert DropDuplicates(rows, column) == [];
    }
  }

  /** The text columns the script converts to strings. */
  const TextColumns: set<string> := {"title", "url", "domain", "sourcecountry", "language", "content", "excerpt"}

  /** `astype(str)` and then `'nan'` to `''`: a missing value and the text `nan` both become empty. */
  function CleanCell(row: Row, column: string): (r: string)
    ensures r == "" <==> column !in row || row[column] == "" || row[column] == "nan"
    ensures r != "" ==> r == row[column]
  {
    if column in row && row[column] != "nan" then row[column] else ""
  }

  /**
   * The row after step 3: every text column of the table holds a string. A
   * row holds the table's columns and no others.
   */
  function Clean(columns: set<string>, row: Row): (r: Row)
    ensures forall c :: c in r <==> c in columns && (c in row || c in TextColumns)
    ensures forall c :: c in columns && c in TextColumns ==> r[c] == CleanCell(row, c)
    ensures forall c :: c in columns && c in row && c !in TextColumns ==> r[c] == row[c]
    ensures forall c :: c in columns && c in TextColumns ==> c in r && r[c] != "nan"
  {
    map c | c in columns && (c in row || c in TextColumns) :: if c in TextColumns then CleanCell(row, c) else row[c]
  }

  /** Cleaning a cleaned row changes nothing: no `nan` is left to replace. */
  lemma CleanIdempotent(columns: set<string>, row: Row)
    ensures Clean(columns, Clean(columns, row)) == Clean(columns, row)
  {
    var r := Clean(columns, row);
    var rr := Clean(columns, r);
    assert forall c :: c in rr <==> c in r;
    assert forall c :: c in r ==> rr[c] == r[c];
  }

  /** A cell of a cleaned row, `""` when the row has no such column. */
  function Cell(row: Row, column: string): string
  {
    if column in row then row[column] else ""
  }

  // ---------------------------------------------------------------------------
  // Relevance

  /** How many of `terms` occur in `text`, a repeated term counting each time. */
  function TermHits(text: string, terms: seq<string>): (n: nat)
    ensures n <= |terms|
  {
    if terms == [] then 0
    else TermHits(text, terms[..|terms| - 1]) + (if Text.Contains(text, terms[|terms| - 1]) then 1 else 0)
  }

  /** The score one field earns: `whole` for the whole keyword, else `each` per term found. */
  function FieldScore(text: string, keyword: string, terms: seq<string>, whole: nat, each: nat): nat
  {
    if Text.Contains(text, keyword) then whole else each * TermHits(text, terms)
  }

  /** The title's share of the score. */
  function TitleScore(columns: set<string>, row: Row, keyword: string, terms: seq<string>): nat
  {
    if "title" in columns && Cell(row, "title") != "" then FieldScore(Text.Lower(Cell(row, "title")), keyword, terms, 10, 4) else 0
  }

  /** The content's share of the score, or the excerpt's when the content is missing or empty. */
  function BodyScore(columns: set<string>, row: Row, keyword: string, terms: seq<string>): nat
  {
    if "content" in columns && Cell(row, "content") != "" then FieldScore(Text.Lower(Cell(row, "content")), keyword, terms, 6, 2)
    else if "excerpt" in columns && Cell(row, "excerpt") != "" then FieldScore(Text.Lower(Cell(row, "excerpt")), keyword, terms, 4, 1)
    else 0
  }

  /** The half-point cap: ten points. */
  const MaxScore: nat := 20

  /** `calculate_relevance(row)` in half-points, for the lowercased keyword and its terms. */
  function Relevance(columns: set<string>, row: Row, keyword: string, terms: seq<string>): (r: nat)
    ensures r <= MaxScore
  {
    var s := TitleScore(columns, row, keyword, terms) + BodyScore(columns, row, keyword, terms);
    if s < MaxScore then s else MaxScore
  }

  /** A title holding the whole keyword earns at least five points, whatever else the row holds. */
  lemma KeywordInTitleScoresHalf(columns: set<string>, row: Row, keyword: string, terms: seq<string>)
    requires "title" in columns && Cell(row, "title") != ""
    requires Text.Contains(Text.Lower(Cell(row, "title")), keyword)
    ensures Relevance(columns, row, keyword, terms) >= 10
  {
  }

  /** The excerpt is read only when the content is missing or empty. */
  lemma ExcerptIgnoredWithContent(columns: set<string>, row: Row, keyword: string, terms: seq<string>, excerpt: string)
    requires "content" in columns && Cell(row, "content") != ""
    ensures Relevance(columns, row["excerpt" := excerpt], keyword, terms) == Relevance(columns, row, keyword, terms)
  {
    var row' := row["excerpt" := excerpt];
    assert Cell(row', "title") == Cell(row, "title");
    assert Cell(row', "content") == Cell(row, "content");
  }

  /** A row with no title, content or excerpt text scores nothing. */
  lemma EmptyRowScoresNothing(columns: set<string>, row: Row, keyword: string, terms: seq<string>)
    requires Cell(row, "title") == "" && Cell(row, "content") == "" && Cell(row, "excerpt") == ""
    ensures Relevance(columns, row, keyword, terms) == 0
  {
  }

  /** When every term occurs in the text, each one counts. */
  lemma {:induction false} TermHitsAll(text: string, terms: seq<string>)
    requires forall k :: 0 <= k < |terms| ==> Text.Contains(text, terms[k])
    ensures TermHits(text, terms) == |terms|
  {
    if terms != [] {
      TermHitsAll(text, terms[..|terms| - 1]);
    }
  }

  /**
   * Terms found one by one can outscore the whole keyword: three terms each
   * found in the title but not as one phrase earn six points, more than the
   * five the phrase itself earns.
   */
  lemma ScatteredTermsOutscorePhrase(columns: set<string>, row: Row, keyword: string, terms: seq<string>)
    requires "title" in columns && Cell(row, "title") != "" && |terms| == 3
    requires !Text.Contains(Text.Lower(Cell(row, "title")), keyword)
    requires forall k :: 0 <= k < |terms| ==> Text.Contains(Text.Lower(Cell(row, "title")), terms[k])
    ensures TitleScore(columns, row, keyword, terms) == 12 > 10
  {
    TermHitsAll(Text.Lower(Cell(row, "title")), terms);
  }

  /** One of the script's term loops: `weight` points for each term found in `text`. */
  method WeightedHits(text: string, terms: seq<string>, weight: nat) returns (points: nat)
    ensures points == weight * TermHits(text, terms)
  {
    points := 0;
    for i := 0 to |terms|
      invariant points == weight * TermHits(text, terms[..i])
    {
      assert terms[..i + 1][..i] == terms[..i];
      if Text.Contains(text, terms[i]) {
        points := points + weight;
      }
    }
    assert terms[..|terms|] == terms;
  }

  /**
   * The loop form of `calculate_relevance`: the three field checks of the
   * script, each falling back to a loop over the keyword's terms.
   */
  method CalculateRelevance(columns: set<string>, row: Row, keyword: string, terms: seq<string>) returns (score: nat)
    ensures score == Relevance(columns, row, keyword, terms)
  {
    score := 0;
    var title := Cell(row, "title");
    if "title" in columns && title != "" {
      var titleLower := Text.Lower(title);
      if Text.Contains(titleLower, keyword) {
        score := score + 10;
      } else {
        var points := WeightedHits(titleLower, terms, 4);
        score := score + points;
      }
    }
    var content := Cell(row, "content");
    var excerpt := Cell(row, "excerpt");
    if "content" in columns && content != "" {
      var contentLower := Text.Lower(content);
      if Text.Contains(contentLower, keyword) {
        score := score + 6;
      } else {
        var points := WeightedHits(contentLower, terms, 2);
        score := score + points;
      }
    } else if "excerpt" in columns && excerpt != "" {
      var excerptLower := Text.Lower(excerpt);
      if Text.Contains(excerptLower, keyword) {
        score := score + 4;
      } else {
        var points := WeightedHits(excerptLower, terms, 1);
        score := score + points;
      }
    }
    if score > MaxScore {
      score := MaxScore;
    }
  }

  // ---------------------------------------------------------------------------
  // Ordering and the whole script

  /** An output record: the cleaned row with its `relevance_score` in half-points. */
  datatype Scored = Scored(row: Row, score: nat)

  /** `seendate` descending with missing dates last. */
  predicate SeenFirst(a: Row, b: Row)
  {
    match (Key(a, "seendate"), Key(b, "seendate"))
    case (Some(x), Some(y)) => Text.LexLe(y, x)
    case (Some(_), None) => true
    case (None, Some(_)) => false
    case (None, None) => true
  }

  /** `sort_values(by=['relevance_score', 'seendate'], ascending=[False, False])`. */
  predicate Before(a: Scored, b: Scored)
  {
    a.score > b.score || (a.score == b.score && SeenFirst(a.row, b.row))
  }

  lemma BeforeIsTotalPreorder()
    ensures Sorting.TotalPreorder((a: Scored, b: Scored) => Before(a, b))
  {
    forall a: Scored, b: Scored ensures Before(a, b) || Before(b, a) {
      if Key(a.row, "seendate").Some? && Key(b.row, "seendate").Some? {
        Text.LexLeTotal(a.row["seendate"], b.row["seendate"]);
      }
    }
    forall a: Scored, b: Scored, c: Scored | Before(a, b) && Before(b, c) ensures Before(a, c) {
      if Key(a.row, "seendate").Some? && Key(b.row, "seendate").Some? && Key(c.row, "seendate").Some? {
        Text.LexLeTransitive(c.row["seendate"], b.row["seendate"], a.row["seendate"]);
      }
    }
  }

  /** What the script prints: the records on success, `[]` for no results, or an error and exit status 1. */
  datatype Outcome = Printed(records: seq<Scored>) | PrintedEmpty | Exited

  /** The GDELT client's answer: a table, or an exception. */
  datatype Search = SearchFailed | Found(table: Table)

  /** Records `x` and `y` carry the same non-empty text in `column`. */
  predicate Shared(x: Scored, y: Scored, column: string)
  {
    Cell(x.row, column) == Cell(y.row, column) != ""
  }

  /** No two records share a url or a title. */
  ghost predicate NoSharedKeys(records: seq<Scored>)
  {
    forall i, j :: 0 <= i < j < |records| ==> !Shared(records[i], records[j], "url") && !Shared(records[i], records[j], "title")
  }

  /** The first half of step 1: duplicate urls removed when the table has a `url` column. */
  function ByUrl(table: Table): (r: seq<Row>)
    ensures forall x :: x in r ==> x in table.rows
    ensures "url" in table.columns ==> forall i, j :: 0 <= i < j < |r| ==> Key(r[i], "url") != Key(r[j], "url")
    ensures KeySet(r, "url") == KeySet(table.rows, "url")
    ensures "url" !in table.columns ==> r == table.rows
  {
    if "url" in table.columns then DropDuplicates(table.rows, "url") else table.rows
  }

  /** Step 1: duplicate urls, then duplicate titles, removed where the table has those columns. */
  function Deduplicated(table: Table): (r: seq<Row>)
    ensures forall x :: x in r ==> x in table.rows
    ensures "url" in table.columns ==> forall i, j :: 0 <= i < j < |r| ==> Key(r[i], "url") != Key(r[j], "url")
    ensures "title" in table.columns ==> forall i, j :: 0 <= i < j < |r| ==> Key(r[i], "title") != Key(r[j], "title")
    ensures "title" !in table.columns ==> KeySet(r, "url") == KeySet(table.rows, "url")
    ensures "title" in table.columns ==> KeySet(r, "title") == KeySet(ByUrl(table), "title")
    ensures "url" !in table.columns && "title" !in table.columns ==> r == table.rows
  {
    var cols := table.columns;
    var byUrl := ByUrl(table);
    var byTitle := if "title" in cols then DropDuplicates(byUrl, "title") else byUrl;
    assert "url" in cols ==> forall i, j :: 0 <= i < j < |byTitle| ==> Key(byTitle[i], "url") != Key(byTitle[j], "url") by {
      if "url" in cols && "title" in cols {
        forall i, j | 0 <= i < j < |byTitle| ensures Key(byTitle[i], "url") != Key(byTitle[j], "url") {
          assert byTitle[i] in byUrl && byTitle[j] in byUrl;
          var a :| 0 <= a < |byUrl| && byUrl[a] == byTitle[i];
          var b :| 0 <= b < |byUrl| && byUrl[b] == byTitle[j];
          assert a != b;
        }
      }
    }
    byTitle
  }

  /** Two cleaned rows with the same non-empty text column had the same key before cleaning. */
  lemma CleanSeparates(cols: set<string>, x: Row, y: Row, column: string)
    requires column in TextColumns
    requires Cell(Clean(cols, x), column) == Cell(Clean(cols, y), column) != ""
    ensures column in cols && Key(x, column) == Key(y, column)
  {
  }

  /** Steps 3 and 4 for one row: clean it and score it. */
  function ScoreRow(cols: set<string>, row: Row, keyword: string, terms: seq<string>): Scored
  {
    var cleaned := Clean(cols, row);
    Scored(cleaned, Relevance(cols, cleaned, keyword, terms))
  }

  /** Steps 1 to 4: the deduplicated, cleaned and scored rows, before the final sort. */
  function ScoredRows(table: Table, keyword: string): (r: seq<Scored>)
    ensures NoSharedKeys(r)
    ensures forall x :: x in r ==> x.score <= MaxScore
    ensures forall x :: x in r ==>
      exists row :: (row in table.rows && x == ScoreRow(table.columns, row, Text.Lower(keyword), Text.Words(Text.Lower(keyword), Text.PySpace)))
    ensures |r| == |Deduplicated(table)|
    ensures forall row :: row in Deduplicated(table) ==>
      ScoreRow(table.columns, row, Text.Lower(keyword), Text.Words(Text.Lower(keyword), Text.PySpace)) in r
  {
    var cols := table.columns;
    var rows := Deduplicated(table);
    var kw := Text.Lower(keyword);
    var terms := Text.Words(kw, Text.PySpace);
    var r := seq(|rows|, i requires 0 <= i < |rows| => ScoreRow(cols, rows[i], kw, terms));
    assert NoSharedKeys(r) by {
      forall i, j | 0 <= i < j < |r| ensures !Shared(r[i], r[j], "url") && !Shared(r[i], r[j], "title") {
        if Shared(r[i], r[j], "url") {
          CleanSeparates(cols, rows[i], rows[j], "url");
        }
        if Shared(r[i], r[j], "title") {
          CleanSeparates(cols, rows[i], rows[j], "title");
        }
      }
    }
    ScoredPositions(cols, rows, kw, terms, r);
    assert forall row :: row in rows ==> row in table.rows;
    r
  }

  /** A list scored position by position holds exactly the scores of the rows. */
  lemma ScoredPositions(cols: set<string>, rows: seq<Row>, kw: string, terms: seq<string>, r: seq<Scored>)
    requires |r| == |rows| && forall i :: 0 <= i < |r| ==> r[i] == ScoreRow(cols, rows[i], kw, terms)
    ensures forall x :: x in r ==> exists row :: (row in rows && x == ScoreRow(cols, row, kw, terms))
    ensures forall row :: row in rows ==> ScoreRow(cols, row, kw, terms) in r
  {
    forall x | x in r ensures exists row :: (row in rows && x == ScoreRow(cols, row, kw, terms)) {
      var i :| 0 <= i < |r| && r[i] == x;
      assert rows[i] in rows;
    }
    forall row | row in rows ensures ScoreRow(cols, row, kw, terms) in r {
      var i :| 0 <= i < |rows| && rows[i] == row;
      assert r[i] == ScoreRow(cols, row, kw, terms);
    }
  }

  /** Sorting only reorders: any two positions of the result come from two positions of the input. */
  lemma SortedKeepsNoSharedKeys(scored: seq<Scored>, sorted: seq<Scored>)
    requires multiset(sorted) == multiset(scored)
    requires NoSharedKeys(scored)
    ensures NoSharedKeys(sorted)
  {
    forall i, j | 0 <= i < j < |sorted| ensures !Shared(sorted[i], sorted[j], "url") && !Shared(sorted[i], sorted[j], "title") {
      var a, b := Sorting.PermutedPositions(sorted, scored, i, j);
      if a > b {
        assert !Shared(scored[b], scored[a], "url") && !Shared(scored[b], scored[a], "title");
      }
    }
  }

  /**
   * The script run with arguments `argv` against the GDELT client `search`:
   * an exception, or a table without a `seendate` column (the final sort
   * names it), ends with exit status 1; an empty table prints `[]`.
   */
  function RunScript(argv: seq<string>, search: Filter -> Search): (out: Outcome)
    ensures search(FilterFor(ParseArgs(argv))).SearchFailed? ==> out == Exited
    ensures out.Printed? <==> var s := search(FilterFor(ParseArgs(argv)));
      s.Found? && s.table.rows != [] && s.table.columns != {} && "seendate" in s.table.columns
    ensures out.PrintedEmpty? <==> var s := search(FilterFor(ParseArgs(argv)));
      s.Found? && (s.table.rows == [] || s.table.columns == {})
    ensures out.Exited? <==> var s := search(FilterFor(ParseArgs(argv)));
      s.SearchFailed? || (s.table.rows != [] && s.table.columns != {} && "seendate" !in s.table.columns)
    ensures out.Printed? ==> Sorting.Sorted(out.records, (a: Scored, b: Scored) => Before(a, b))
    ensures out.Printed? ==> NoSharedKeys(out.records)
    ensures out.Printed? ==> forall x :: x in out.records ==> x.score <= MaxScore
    ensures out.Printed? ==> multiset(out.records) == multiset(ScoredRows(search(FilterFor(ParseArgs(argv))).table, ParseArgs(argv).keyword))
  {
    var args := ParseArgs(argv);
    match search(FilterFor(args))
    case SearchFailed => Exited
    case Found(table) =>
      if table.rows == [] || table.columns == {} then PrintedEmpty
      else if "seendate" !in table.columns then Exited
      else
        var scored := ScoredRows(table, args.keyword);
        BeforeIsTotalPreorder();
        var sorted := Sorting.Sort(scored, (a: Scored, b: Scored) => Before(a, b));
        Sorting.SortSorted(scored, (a: Scored, b: Scored) => Before(a, b));
        SortedKeepsNoSharedKeys(scored, sorted);
        assert forall x :: x in sorted ==> x in multiset(scored);
        Printed(sorted)
  }

  /** A table with no rows prints `[]`, whatever the arguments. */
  lemma EmptyResultPrintsEmptyList(argv: seq<string>, search: Filter -> Search)
    requires search(FilterFor(ParseArgs(argv))).Found?
    requires search(FilterFor(ParseArgs(argv))).table.rows == []
    ensures RunScript(argv, search) == PrintedEmpty
  {
  }

  /** A non-empty table without a `seendate` column fails at the final sort. */
  lemma MissingSeenDateFails(argv: seq<string>, search: Filter -> Search)
    requires search(FilterFor(ParseArgs(argv))).Found?
    requires var t := search(FilterFor(ParseArgs(argv))).table; t.rows != [] && t.columns != {} && "seendate" !in t.columns
    ensures RunScript(argv, search) == Exited
  {
  }

  /** Every printed record is a row of the table, cleaned and scored by `calculate_relevance`. */
  lemma PrintedRecordsComeFromTable(argv: seq<string>, search: Filter -> Search, x: Scored)
    requires RunScript(argv, search).Printed? && x in RunScript(argv, search).records
    ensures var table := search(FilterFor(ParseArgs(argv))).table;
      var kw := Text.Lower(ParseArgs(argv).keyword);
      exists row :: row in table.rows && x == ScoreRow(table.columns, row, kw, Text.Words(kw, Text.PySpace))
  {
    var table := search(FilterFor(ParseArgs(argv))).table;
    var records := RunScript(argv, search).records;
    var scored := ScoredRows(table, ParseArgs(argv).keyword);
    assert x in multiset(records);
    assert x in multiset(scored);
    assert x in scored;
  }
}
