/**
 * Articles as the browser holds them (script.js), the three feed orders of
 * `sortAndRenderArticles` (script.js:1098-1149) and `groupArticlesByCountry`
 * (script.js:623-635).
 */
module Articles {
  import opened Wrappers
  import Text
  import Sorting
  import Grouping

  /**
   * A JSON value of an article field. The only numbers the feed carries are
   * relevance scores, which are multiples of 0.5; `Num` holds twice the value.
   */
  datatype Value = Str(s: string) | Num(halves: int) | Null

  /** An article: a JavaScript object, with its keys in insertion order and its fields. */
  datatype Article = Article(keys: seq<string>, fields: map<string, Value>)

  /** `a[k] || ''` for a field that holds text; a field that is missing, null or not text reads as `''`. */
  function StringField(a: Article, k: string): string
  {
    if k in a.fields && a.fields[k].Str? then a.fields[k].s else ""
  }

  function SeenDate(a: Article): string { StringField(a, "seendate") }

  function SourceCountry(a: Article): string { StringField(a, "sourcecountry") }

  /** `relevance_score` in half-points, 0 when the field is undefined. */
  function Score(a: Article): int
  {
    if "relevance_score" in a.fields && a.fields["relevance_score"].Num? then a.fields["relevance_score"].halves else 0
  }

  /** The options of the feed's sort selector. */
  datatype SortBy = Time | Relevance | Country

  /** The comparators passed to `Array.prototype.sort`: negative when `a` goes first. */
  function Comparator(sortBy: SortBy, a: Article, b: Article): (r: int)
    ensures sortBy == Time ==> (r <= 0 <==> Text.LexLe(SeenDate(b), SeenDate(a)))
    ensures sortBy == Relevance && Score(a) != Score(b) ==> (r < 0 <==> Score(a) > Score(b))
    ensures sortBy == Country && SourceCountry(a) != SourceCountry(b) ==>
              (r < 0 <==> Text.LexLe(SourceCountry(a), SourceCountry(b)))
    ensures (sortBy == Relevance && Score(a) == Score(b)) || (sortBy == Country && SourceCountry(a) == SourceCountry(b)) ==>
              (r <= 0 <==> Text.LexLe(SeenDate(b), SeenDate(a)))
  {
    match sortBy
    case Time => Text.Compare(SeenDate(b), SeenDate(a))
    case Relevance =>
      if Score(a) == Score(b) then Text.Compare(SeenDate(b), SeenDate(a)) else Score(b) - Score(a)
    case Country =>
      if SourceCountry(a) == SourceCountry(b) then Text.Compare(SeenDate(b), SeenDate(a))
      else Text.Compare(SourceCountry(a), SourceCountry(b))
  }

  /** `a` may stand before `b`. */
  predicate InOrder(sortBy: SortBy, a: Article, b: Article)
  {
    Comparator(sortBy, a, b) <= 0
  }

  function Order(sortBy: SortBy): (Article, Article) -> bool
  {
    (a, b) => InOrder(sortBy, a, b)
  }

  /** Each comparator orders articles totally and transitively, so sorting by it is well defined. */
  lemma ComparatorIsTotalPreorder(sortBy: SortBy)
    ensures Sorting.TotalPreorder(Order(sortBy))
  {
    forall a, b ensures InOrder(sortBy, a, b) || InOrder(sortBy, b, a) {
      Text.LexLeTotal(SeenDate(a), SeenDate(b));
      Text.LexLeTotal(SourceCountry(a), SourceCountry(b));
    }
    forall a, b, c | InOrder(sortBy, a, b) && InOrder(sortBy, b, c) ensures InOrder(sortBy, a, c) {
      InOrderTransitive(sortBy, a, b, c);
    }
  }

  lemma InOrderTransitive(sortBy: SortBy, a: Article, b: Article, c: Article)
    requires InOrder(sortBy, a, b) && InOrder(sortBy, b, c)
    ensures InOrder(sortBy, a, c)
  {
    var x, y, z := SourceCountry(a), SourceCountry(b), SourceCountry(c);
    Text.LexLeTransitive(SeenDate(c), SeenDate(b), SeenDate(a));
    Text.LexLeTransitive(x, y, z);
    Text.LexLeAntisymmetric(x, y);
    Text.LexLeAntisymmetric(y, z);
  }

  /**
   * The feed order of `sortAndRenderArticles`: a reordering of a copy of the
   * articles, by date (newest first), by score (highest first, then newest), or
   * by country (ascending, then newest).
   */
  function SortArticles(articles: seq<Article>, sortBy: SortBy): (r: seq<Article>)
    ensures multiset(r) == multiset(articles)
    ensures sortBy == Time ==>
      forall i, j :: 0 <= i < j < |r| ==> Text.LexLe(SeenDate(r[j]), SeenDate(r[i]))
    ensures sortBy == Relevance ==>
      forall i, j :: 0 <= i < j < |r| ==>
        Score(r[i]) >= Score(r[j]) && (Score(r[i]) == Score(r[j]) ==> Text.LexLe(SeenDate(r[j]), SeenDate(r[i])))
    ensures sortBy == Country ==>
      forall i, j :: 0 <= i < j < |r| ==>
        Text.LexLe(SourceCountry(r[i]), SourceCountry(r[j]))
        && (SourceCountry(r[i]) == SourceCountry(r[j]) ==> Text.LexLe(SeenDate(r[j]), SeenDate(r[i])))
  {
    ComparatorIsTotalPreorder(sortBy);
    var r := Sorting.Sort(articles, Order(sortBy));
    Sorting.SortSorted(articles, Order(sortBy));
    assert forall i, j :: 0 <= i < j < |r| ==> InOrder(sortBy, r[i], r[j]);
    assert forall i :: 0 <= i < |r| ==> Text.LexLe(SourceCountry(r[i]), SourceCountry(r[i])) by {
      forall i | 0 <= i < |r| { Text.LexLeReflexive(SourceCountry(r[i])); }
    }
    r
  }

  /** Under the time order an article without a date sorts after every dated one. */
  lemma MissingDateSortsLast(articles: seq<Article>, i: nat, j: nat)
    requires i < j < |articles|
    requires SeenDate(SortArticles(articles, Time)[i]) == ""
    ensures SeenDate(SortArticles(articles, Time)[j]) == ""
  {
    var r := SortArticles(articles, Time);
    Text.LexLeReflexive("");
    assert Text.LexLe(SeenDate(r[j]), "");
  }

  /** The grouping key of `groupArticlesByCountry`: articles without a source country are dropped. */
  function CountryKey(a: Article): Option<string>
  {
    if SourceCountry(a) != "" then Some(SourceCountry(a)) else None
  }

  /** The articles that have a source country, in feed order. */
  function WithCountry(articles: seq<Article>): seq<Article>
  {
    Grouping.Kept(articles, CountryKey)
  }

  /**
   * `groupArticlesByCountry`: one group per source country that occurs, holding
   * that country's articles in input order; `countries` lists the groups in
   * order of first appearance, as `Object.entries` visits them.
   */
  method GroupArticlesByCountry(articles: seq<Article>) returns (countries: seq<string>, groups: map<string, seq<Article>>)
    ensures forall c :: c in groups <==> c != "" && exists i :: 0 <= i < |articles| && SourceCountry(articles[i]) == c
    ensures forall c :: c in groups ==> groups[c] != [] && groups[c] == Grouping.Members(articles, CountryKey, c)
    ensures forall c, k :: c in groups && 0 <= k < |groups[c]| ==> SourceCountry(groups[c][k]) == c
    ensures countries == Grouping.KeysInOrder(articles, CountryKey)
    ensures forall c :: c in groups <==> Grouping.HasKey(articles, CountryKey, c)
    ensures Grouping.Distinct(countries) && forall c :: c in countries <==> c in groups
    ensures Grouping.SumSizes(countries, groups) == |WithCountry(articles)|
  {
    countries, groups := Grouping.GroupBy(articles, CountryKey);
    forall c | c in groups ensures forall k :: 0 <= k < |groups[c]| ==> SourceCountry(groups[c][k]) == c {
      GroupHoldsCountry(articles, c);
    }
    forall c ensures c in groups <==> c != "" && exists i :: 0 <= i < |articles| && SourceCountry(articles[i]) == c {
      HasCountry(articles, c);
    }
  }

  /** A country has a group exactly when it is not empty and some article comes from it. */
  lemma HasCountry(articles: seq<Article>, c: string)
    ensures Grouping.HasKey(articles, CountryKey, c) <==> c != "" && exists i :: 0 <= i < |articles| && SourceCountry(articles[i]) == c
  {
    if Grouping.HasKey(articles, CountryKey, c) {
      var i :| 0 <= i < |articles| && CountryKey(articles[i]) == Some(c);
    }
    if c != "" && exists i :: 0 <= i < |articles| && SourceCountry(articles[i]) == c {
      var i :| 0 <= i < |articles| && SourceCountry(articles[i]) == c;
      assert CountryKey(articles[i]) == Some(c);
    }
  }

  /** Every article in the group of `c` comes from `c`. */
  lemma GroupHoldsCountry(articles: seq<Article>, c: string)
    ensures forall k :: 0 <= k < |Grouping.Members(articles, CountryKey, c)| ==> SourceCountry(Grouping.Members(articles, CountryKey, c)[k]) == c
  {
    var g := Grouping.Members(articles, CountryKey, c);
    assert forall k :: 0 <= k < |g| ==> CountryKey(g[k]) == Some(c);
  }
}
