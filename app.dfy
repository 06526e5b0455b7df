/**
 * The browser application's shared `state` object (script.js:8-35) and the
 * handlers that update it: URL seeding, the visualization toggle and map
 * layer bookkeeping, the country index behind the markers, the country
 * modal, the feed with its pages, export, and the fetch cycle.
 *
 * The map library is reduced to which layer is on the map and what each
 * layer holds; the page is reduced to what each panel shows and which
 * buttons the pagination bars hold.
 */
module App {
  import opened Wrappers
  import opened Articles
  import opened Pagination
  import Grouping
  import Timespan
  import Csv

  /** `state.visualization`. */
  datatype Mode = MarkersMode | ClustersMode | HeatmapMode

  /** `state.currentQuery`. */
  datatype Query = Query(keyword: string, timespan: string, country: string, sortBy: SortBy)

  /** `state.modalData`. */
  datatype ModalData = ModalData(country: Option<string>, articles: seq<Article>, currentPage: int)

  /** What a list panel (the feed or the modal body) shows. */
  datatype Panel = Blank | Listing(shown: seq<Article>) | NoResults | LoadError

  /** A pagination bar: its controls and the list their click handlers captured. */
  datatype Buttons = Buttons(controls: seq<Control>, articles: seq<Article>)

  datatype Toast = NoArticlesForRegion | HeatmapUnavailable | NoDataToExport | CsvDownloaded | JsonDownloaded | LoadFailed

  /** A file handed to the browser; the JSON text itself is not modelled. */
  datatype Download = CsvFile(name: string, content: string) | JsonFile(name: string, data: seq<Article>)

  datatype Format = CsvFormat | JsonFormat

  /** The query string of the request to `get_news.php`; a parameter left off the URL is `None`. */
  datatype NewsRequest = NewsRequest(timespan: string, q: Option<string>, country: Option<string>)

  /** How the request ended, as the fetch handler sees it. */
  datatype FetchResult =
    | NetworkFailure
    | HttpError(code: int)
    | InvalidJson
    | Json(status: Option<string>, data: Option<seq<Article>>)

  /** The three ways `fetchNewsAndUpdate` goes on after the response. */
  datatype Outcome = Failed | NoData | Loaded(articles: seq<Article>)

  /** The icon class of a marker cluster. */
  datatype SizeClass = Small | Medium | Large

  /** JavaScript truthiness of a string that may be `null`. */
  predicate Truthy(o: Option<string>)
  {
    o.Some? && o.value != ""
  }

  /** `o || fallback` for a string that may be `null`. */
  function Or(o: Option<string>, fallback: string): (r: string)
    ensures Truthy(o) ==> r == o.value
    ensures !Truthy(o) ==> r == fallback
    ensures r != "" <==> Truthy(o) || fallback != ""
  {
    if Truthy(o) then o.value else fallback
  }

  /** The mode a toggle button selects: clicking the active mode goes back to markers. */
  function Toggled(current: Mode, clicked: Mode): (r: Mode)
    ensures r == MarkersMode <==> current == clicked || clicked == MarkersMode
    ensures r != MarkersMode ==> r == clicked
  {
    if current == clicked then MarkersMode else clicked
  }

  /** Pressing the same toggle twice, starting from markers, comes back to markers. */
  lemma ToggleTwiceFromMarkers(clicked: Mode)
    ensures Toggled(Toggled(MarkersMode, clicked), clicked) == MarkersMode
  {
    if clicked != MarkersMode {
      assert Toggled(MarkersMode, clicked) == clicked;
    }
  }

  /** The icon class of a cluster of `count` markers (script.js:524-533). */
  function ClusterSize(count: nat): (r: SizeClass)
    ensures r == Small <==> count < 10
    ensures r == Large <==> count >= 50
  {
    if count < 10 then Small else if count < 50 then Medium else Large
  }

  function SizeRank(c: SizeClass): nat
  {
    match c
    case Small => 0
    case Medium => 1
    case Large => 2
  }

  /** A bigger cluster never gets a smaller icon class. */
  lemma ClusterSizeMonotone(m: nat, n: nat)
    requires m <= n
    ensures SizeRank(ClusterSize(m)) <= SizeRank(ClusterSize(n))
  {
  }

  /** The article's source country has a capital, so it can be placed on the map. */
  predicate HasCapital(a: Article, capitals: set<string>)
  {
    SourceCountry(a) != "" && SourceCountry(a) in capitals
  }

  /** The articles that get a marker in the cluster layer: a source country with a known capital. */
  function Clustered(articles: seq<Article>, capitals: set<string>): (r: seq<Article>)
    ensures forall j :: 0 <= j < |r| ==> HasCapital(r[j], capitals)
    ensures forall a :: a in r <==> a in articles && HasCapital(a, capitals)
    ensures |r| <= |articles|
  {
    if articles == [] then []
    else
      var init, a := articles[..|articles| - 1], articles[|articles| - 1];
      assert articles == init + [a];
      Clustered(init, capitals) + (if HasCapital(a, capitals) then [a] else [])
  }

  /** Clustering distributes over concatenation, so the layer keeps the feed's order. */
  lemma {:induction false} ClusteredAppend(xs: seq<Article>, ys: seq<Article>, capitals: set<string>)
    ensures Clustered(xs + ys, capitals) == Clustered(xs, capitals) + Clustered(ys, capitals)
    decreases |ys|
  {
    if ys == [] {
      assert xs + ys == xs;
    } else {
      var init, last := ys[..|ys| - 1], ys[|ys| - 1];
      assert (xs + ys)[..|xs + ys| - 1] == xs + init;
      assert (xs + ys)[|xs + ys| - 1] == last;
      ClusteredAppend(xs, init, capitals);
    }
  }

  /** The countries of `countries` that have a capital, in order. */
  function WithCapital(countries: seq<string>, capitals: set<string>): (r: seq<string>)
    ensures forall c :: c in r <==> c in countries && c in capitals
  {
    if countries == [] then []
    else
      WithCapital(countries[..|countries| - 1], capitals)
        + (if countries[|countries| - 1] in capitals then [countries[|countries| - 1]] else [])
  }

  /** The countries that get a marker, in order of their first article. */
  function MarkerCountries(articles: seq<Article>, capitals: set<string>): seq<string>
  {
    WithCapital(Grouping.KeysInOrder(articles, CountryKey), capitals)
  }

  /** `state.articlesByCountry` after the markers are drawn: each country with a capital and its articles in feed order. */
  ghost function CountryIndex(articles: seq<Article>, capitals: set<string>): map<string, seq<Article>>
  {
    map c | c in capitals && Grouping.HasKey(articles, CountryKey, c) :: Grouping.Members(articles, CountryKey, c)
  }

  /** The list `exportData` writes: the modal's articles while a modal country is set, otherwise the whole feed. */
  function ExportSource(modal: ModalData, all: seq<Article>): (r: seq<Article>)
    ensures r == all || r == modal.articles
    ensures r != all ==> Truthy(modal.country)
    ensures Truthy(modal.country) ==> r == modal.articles
  {
    if Truthy(modal.country) then modal.articles else all
  }

  /** `gdelt-news-<keyword>-<timespan>`. */
  function ExportName(q: Query): (r: string)
    ensures |r| == 12 + |q.keyword| + |q.timespan|
    ensures r[..11] == "gdelt-news-" && r[|r| - |q.timespan|..] == q.timespan
    ensures r[11..11 + |q.keyword|] == q.keyword
  {
    "gdelt-news-" + q.keyword + "-" + q.timespan
  }

  /** The request URL: the window always, the keyword and country only when non-empty. */
  function RequestFor(q: Query): (r: NewsRequest)
    ensures r.timespan == q.timespan
    ensures r.q.Some? <==> q.keyword != ""
    ensures r.q.Some? ==> r.q.value == q.keyword
    ensures r.country.Some? <==> q.country != ""
    ensures r.country.Some? ==> r.country.value == q.country
  {
    NewsRequest(q.timespan, if q.keyword != "" then Some(q.keyword) else None,
                if q.country != "" then Some(q.country) else None)
  }

  /** The query a request URL was built from, with the sort order (which the URL does not carry) given. */
  function QueryOf(r: NewsRequest, sortBy: SortBy): Query
  {
    Query(r.q.GetOr(""), r.timespan, r.country.GetOr(""), sortBy)
  }

  /** The request URL loses nothing of the query but its sort order. */
  lemma RequestForRoundTrip(q: Query)
    ensures QueryOf(RequestFor(q), q.sortBy) == q
  {
  }

  /** The map's layers as `refreshMapVisualization` leaves them. */
  datatype Layers = Layers(markersOnMap: bool, clusterOnMap: bool, markers: seq<string>, clusterMarkers: seq<Article>,
                           index: map<string, seq<Article>>, toasts: seq<Toast>)

  /**
   * The layers after a redraw of `list` in `mode`: every layer is taken off;
   * with no articles an empty markers layer goes back on; in clusters mode the
   * cluster layer is rebuilt; otherwise the markers and the country index are
   * rebuilt, with a warning toast in heatmap mode. Whatever is not rebuilt
   * keeps its contents.
   */
  ghost function Redraw(list: seq<Article>, mode: Mode, capitals: set<string>, before: Layers): Layers
  {
    if list == [] then before.(markersOnMap := true, clusterOnMap := false, markers := [])
    else if mode == ClustersMode then
      before.(markersOnMap := false, clusterOnMap := true, clusterMarkers := Clustered(list, capitals))
    else
      before.(markersOnMap := true, clusterOnMap := false, markers := MarkerCountries(list, capitals),
              index := CountryIndex(list, capitals),
              toasts := before.toasts + (if mode == HeatmapMode then [HeatmapUnavailable] else []))
  }

  /** The order of the checks in `fetchNewsAndUpdate`: failures first, then the empty cases, then data. */
  function Classify(result: FetchResult): (o: Outcome)
    ensures o.Loaded? ==> o.articles != [] && result.Json? && result.status != Some("error") && result.status != Some("empty")
    ensures (result.Json? && result.status != Some("error") && result.status != Some("empty")
              && result.data.Some? && result.data.value != []) ==> o == Loaded(result.data.value)
    ensures o == Failed <==> !result.Json? || result.status == Some("error")
  {
    match result
    case Json(status, data) =>
      if status == Some("error") then Failed
      else if status == Some("empty") || data.None? || data.value == [] then NoData
      else Loaded(data.value)
    case _ => Failed
  }

  /** The feed panel for page `page` of `articles` (ten per page). */
  function FeedPanel(articles: seq<Article>, page: int): Panel
  {
    var slice := PageSlice(articles, page, FeedPageSize);
    if slice == [] then NoResults else Listing(slice)
  }

  /** The feed's pagination bar for page `page` of `articles`: cleared when the page is empty. */
  function FeedButtons(articles: seq<Article>, page: int): Buttons
  {
    if PageSlice(articles, page, FeedPageSize) == [] then Buttons([], [])
    else Buttons(Bar(TotalPages(|articles|, FeedPageSize), page), articles)
  }

  /** Every control of a bar opens a page of the list it captured. */
  ghost predicate ButtonsInRange(b: Buttons, perPage: nat)
    requires perPage > 0
  {
    forall c :: c in b.controls && !c.Gap? ==> 1 <= PageOf(c) <= TotalPages(|b.articles|, perPage)
  }

  /** The index `addMarkers` builds from the groups of `groupArticlesByCountry` is `CountryIndex`. */
  lemma IndexOfGroups(articles: seq<Article>, capitals: set<string>, groups: map<string, seq<Article>>,
                      index: map<string, seq<Article>>)
    requires forall c :: c in groups <==> Grouping.HasKey(articles, CountryKey, c)
    requires forall c :: c in groups ==> groups[c] == Grouping.Members(articles, CountryKey, c)
    requires forall c :: c in index <==> c in groups && c in capitals
    requires forall c :: c in index ==> index[c] == groups[c]
    ensures index == CountryIndex(articles, capitals)
  {
    var expected := CountryIndex(articles, capitals);
    assert forall c :: c in index <==> c in expected;
  }

  class NewsApp {
    var capitals: set<string>
    var articlesByCountry: map<string, seq<Article>>
    var allArticles: seq<Article>
    var visualization: Mode
    var currentPage: int
    var isLoading: bool
    var currentQuery: Query
    var modalData: ModalData
    /** Whether the country modal carries the `show` class. */
    var modalOpen: bool
    /** Which of `markersLayer` and `clusterLayer` is on the map (`heatmapLayer` is never created). */
    var markersOnMap: bool
    var clusterOnMap: bool
    /** The countries with a marker in `markersLayer`, and the articles with a marker in `clusterLayer`. */
    var markers: seq<string>
    var clusterMarkers: seq<Article>
    var feed: Panel
    var feedPagination: Buttons
    var modalArticles: Panel
    var modalPagination: Buttons
    /** The values of the search box and the time-window selector. */
    var searchInput: string
    var timeRange: string
    var toasts: seq<Toast>
    var downloads: seq<Download>

    /** Exactly one of the two layers is on the map, and the rest of the state is `Consistent`. */
    /** The map's layers and the toasts shown so far. */
    function MapLayers(): Layers
      reads this`markersOnMap, this`clusterOnMap, this`markers, this`clusterMarkers, this`articlesByCountry, this`toasts
    {
      Layers(markersOnMap, clusterOnMap, markers, clusterMarkers, articlesByCountry, toasts)
    }

    ghost predicate Valid()
      reads this`markersOnMap, this`clusterOnMap, this`currentPage, this`articlesByCountry, this`capitals,
            this`modalData, this`feedPagination, this`modalPagination
    {
      Consistent() && markersOnMap != clusterOnMap
    }

    /**
     * The feed page is a real page number, the country index only holds
     * countries with a capital and non-empty lists, a modal country always
     * comes with articles, and every pagination button opens a page of the
     * list it captured.
     */
    ghost predicate Consistent()
      reads this`currentPage, this`articlesByCountry, this`capitals, this`modalData,
            this`feedPagination, this`modalPagination
    {
      && currentPage >= 1
      && (forall c :: c in articlesByCountry ==> c in capitals && articlesByCountry[c] != [])
      && (modalData.country.Some? ==> modalData.articles != [])
      && ButtonsInRange(feedPagination, FeedPageSize)
      && ButtonsInRange(modalPagination, ModalPageSize)
    }

    /** The state after `fetchCapitals` and `initMap`: the initial `state` object with an empty markers layer on the map. */
    constructor(capitalCities: set<string>)
      ensures Valid()
      ensures capitals == capitalCities && articlesByCountry == map[] && allArticles == []
      ensures visualization == MarkersMode && currentPage == 1 && !isLoading
      ensures currentQuery == Query("earthquake", "24h", "", Time) && modalData == ModalData(None, [], 1) && !modalOpen
      ensures markersOnMap && !clusterOnMap && markers == [] && clusterMarkers == []
      ensures feed == Blank && feedPagination == Buttons([], []) && modalArticles == Blank && modalPagination == Buttons([], [])
      ensures searchInput == "" && timeRange == Timespan.Default && toasts == [] && downloads == []
    {
      capitals := capitalCities;
      articlesByCountry := map[];
      allArticles := [];
      visualization := MarkersMode;
      currentPage := 1;
      isLoading := false;
      currentQuery := Query("earthquake", "24h", "", Time);
      modalData := ModalData(None, [], 1);
      modalOpen := false;
      markersOnMap := true;
      clusterOnMap := false;
      markers := [];
      clusterMarkers := [];
      feed := Blank;
      feedPagination := Buttons([], []);
      modalArticles := Blank;
      modalPagination := Buttons([], []);
      searchInput := "";
      timeRange := Timespan.Default;
      toasts := [];
      downloads := [];
    }

    /**
     * `processUrlParams`: the `q`, `timespan` and `country` parameters
     * (`None` when absent) overwrite the query when non-empty. The
     * whitelist only guards the selector: the query takes the raw window.
     */
    method ProcessUrlParams(q: Option<string>, timespan: Option<string>, country: Option<string>)
      modifies this`searchInput, this`timeRange, this`currentQuery
      ensures searchInput == if Truthy(q) then q.value else old(searchInput)
      ensures timeRange == if Truthy(timespan) && timespan.value in Timespan.Allowed then timespan.value else old(timeRange)
      ensures currentQuery == old(currentQuery).(keyword := Or(q, old(currentQuery.keyword)),
                                                 timespan := Or(timespan, old(currentQuery.timespan)),
                                                 country := Or(country, old(currentQuery.country)))
      ensures Truthy(timespan) && timespan.value !in Timespan.Allowed ==>
        currentQuery.timespan == timespan.value && timeRange == old(timeRange)
    {
      if Truthy(q) {
        searchInput := q.value;
      }
      if Truthy(timespan) && timespan.value in Timespan.Allowed {
        timeRange := timespan.value;
      }
      if Truthy(q) || Truthy(timespan) || Truthy(country) {
        currentQuery := currentQuery.(keyword := Or(q, currentQuery.keyword),
                                      timespan := Or(timespan, currentQuery.timespan),
                                      country := Or(country, currentQuery.country));
      }
    }

    /** `renderFeedArticles`: show page `page`, or the placeholder and no buttons when that page is empty. */
    method RenderFeed(articles: seq<Article>, page: int)
      requires page >= 1
      modifies this`feed, this`feedPagination
      ensures feed == FeedPanel(articles, page) && feedPagination == FeedButtons(articles, page)
      ensures ButtonsInRange(feedPagination, FeedPageSize)
    {
      var slice := PageSlice(articles, page, FeedPageSize);
      if slice == [] {
        feed := NoResults;
        feedPagination := Buttons([], []);
      } else {
        feed := Listing(slice);
        PageEmptyIff(articles, page, FeedPageSize);
        BarTargetsInRange(TotalPages(|articles|, FeedPageSize), page);
        var controls := RenderPagination(|articles|, FeedPageSize, page);
        feedPagination := Buttons(controls, articles);
      }
    }

    /**
     * `renderModalArticles`: show page `page` of the modal list, or the
     * placeholder when it is empty; that path leaves the old buttons in place.
     */
    method RenderModal(articles: seq<Article>, page: int)
      requires page >= 1 && ButtonsInRange(modalPagination, ModalPageSize)
      modifies this`modalArticles, this`modalPagination
      ensures var slice := PageSlice(articles, page, ModalPageSize);
        && (slice == [] ==> modalArticles == NoResults && modalPagination == old(modalPagination))
        && (slice != [] ==>
              modalArticles == Listing(slice)
              && modalPagination == Buttons(Bar(TotalPages(|articles|, ModalPageSize), page), articles))
      ensures ButtonsInRange(modalPagination, ModalPageSize)
    {
      var slice := PageSlice(articles, page, ModalPageSize);
      if slice == [] {
        modalArticles := NoResults;
      } else {
        modalArticles := Listing(slice);
        PageEmptyIff(articles, page, ModalPageSize);
        BarTargetsInRange(TotalPages(|articles|, ModalPageSize), page);
        var controls := RenderPagination(|articles|, ModalPageSize, page);
        modalPagination := Buttons(controls, articles);
      }
    }

    /** `sortAndRenderArticles`: render the current page of a sorted copy; `allArticles` itself is left as it is. */
    method SortAndRender()
      requires Valid()
      modifies this`feed, this`feedPagination
      ensures Valid()
      ensures var sorted := SortArticles(allArticles, currentQuery.sortBy);
        feed == FeedPanel(sorted, currentPage) && feedPagination == FeedButtons(sorted, currentPage)
    {
      var sorted := SortArticles(allArticles, currentQuery.sortBy);
      RenderFeed(sorted, currentPage);
    }

    /** The sort selector's change handler: a new order, the same page. */
    method ChangeSort(sortBy: SortBy)
      requires Valid()
      modifies this`currentQuery, this`feed, this`feedPagination
      ensures Valid()
      ensures currentQuery == old(currentQuery).(sortBy := sortBy)
      ensures var sorted := SortArticles(allArticles, sortBy);
        feed == FeedPanel(sorted, currentPage) && feedPagination == FeedButtons(sorted, currentPage)
    {
      currentQuery := currentQuery.(sortBy := sortBy);
      SortAndRender();
    }

    /** A click on control `i` of the feed's bar: an arrow or a numbered button sets the page and renders it. */
    method ClickFeedButton(i: nat)
      requires Valid() && i < |feedPagination.controls|
      modifies this`currentPage, this`feed, this`feedPagination
      ensures Valid()
      ensures var c, list := old(feedPagination.controls[i]), old(feedPagination.articles);
        && (c.Gap? ==> currentPage == old(currentPage) && feed == old(feed) && feedPagination == old(feedPagination))
        && (!c.Gap? ==>
              && currentPage == PageOf(c)
              && feed == Listing(PageSlice(list, PageOf(c), FeedPageSize))
              && feedPagination == FeedButtons(list, PageOf(c)))
    {
      var c := feedPagination.controls[i];
      var list := feedPagination.articles;
      var p;
      match c {
        case Gap(_) => return;
        case Prev(t) => p := t;
        case Next(t) => p := t;
        case PageButton(n, _) => p := n;
      }
      assert p == PageOf(c);
      currentPage := p;
      PageEmptyIff(list, p, FeedPageSize);
      RenderFeed(list, p);
    }

    /** A click on control `i` of the modal's bar: renders that page but leaves `modalData.currentPage` as it was. */
    method ClickModalButton(i: nat)
      requires Valid() && i < |modalPagination.controls|
      modifies this`modalArticles, this`modalPagination
      ensures Valid()
      ensures modalData == old(modalData)
      ensures var c, list := old(modalPagination.controls[i]), old(modalPagination.articles);
        && (c.Gap? ==> modalArticles == old(modalArticles) && modalPagination == old(modalPagination))
        && (!c.Gap? ==>
              && modalArticles == Listing(PageSlice(list, PageOf(c), ModalPageSize))
              && modalPagination == Buttons(Bar(TotalPages(|list|, ModalPageSize), PageOf(c)), list))
    {
      var c := modalPagination.controls[i];
      var list := modalPagination.articles;
      var p;
      match c {
        case Gap(_) => return;
        case Prev(t) => p := t;
        case Next(t) => p := t;
        case PageButton(n, _) => p := n;
      }
      assert p == PageOf(c);
      PageEmptyIff(list, p, ModalPageSize);
      RenderModal(list, p);
    }

    /**
     * `addMarkers`: empty the markers layer, reset the country index, then for
     * each group whose country has a capital add a marker and store the group.
     */
    method AddMarkers(countries: seq<string>, groups: map<string, seq<Article>>)
      requires Grouping.Distinct(countries) && forall c :: c in countries <==> c in groups
      requires forall c :: c in groups ==> groups[c] != []
      modifies this`markers, this`articlesByCountry
      ensures markers == WithCapital(countries, capitals)
      ensures forall c :: c in articlesByCountry <==> c in groups && c in capitals
      ensures forall c :: c in articlesByCountry ==> articlesByCountry[c] == groups[c]
    {
      markers := [];
      articlesByCountry := map[];
      var i := 0;
      while i < |countries|
        invariant 0 <= i <= |countries|
        invariant markers == WithCapital(countries[..i], capitals)
        invariant forall c :: c in articlesByCountry <==> c in countries[..i] && c in capitals
        invariant forall c :: c in articlesByCountry ==> articlesByCountry[c] == groups[c]
      {
        var country := countries[i];
        assert countries[..i + 1] == countries[..i] + [country];
        assert countries[..i + 1][..i] == countries[..i];
        if country in capitals {
          markers := markers + [country];
          articlesByCountry := articlesByCountry[country := groups[country]];
        }
        i := i + 1;
      }
      assert countries[..i] == countries;
    }

    /** `createClusterVisualization`: a new cluster layer holding a marker per article whose country has a capital. */
    method CreateClusterVisualization()
      modifies this`clusterOnMap, this`clusterMarkers
      ensures clusterOnMap && clusterMarkers == Clustered(allArticles, capitals)
    {
      clusterMarkers := [];
      clusterOnMap := true;
      var i := 0;
      while i < |allArticles|
        invariant 0 <= i <= |allArticles|
        invariant clusterOnMap && clusterMarkers == Clustered(allArticles[..i], capitals)
      {
        var article := allArticles[i];
        assert allArticles[..i + 1][..i] == allArticles[..i];
        if SourceCountry(article) != "" && SourceCountry(article) in capitals {
          clusterMarkers := clusterMarkers + [article];
        }
        i := i + 1;
      }
      assert allArticles[..i] == allArticles;
    }

    /** `createMarkerVisualization`: a fresh markers layer, then the grouped articles drawn on it. */
    method CreateMarkerVisualization()
      requires Consistent()
      modifies this`markersOnMap, this`markers, this`articlesByCountry
      ensures Consistent() && markersOnMap
      ensures markers == MarkerCountries(allArticles, capitals)
      ensures articlesByCountry == CountryIndex(allArticles, capitals)
    {
      markersOnMap := true;
      markers := [];
      var countries, groups := GroupArticlesByCountry(allArticles);
      AddMarkers(countries, groups);
      IndexOfGroups(allArticles, capitals, groups, articlesByCountry);
    }

    /**
     * `refreshMapVisualization`: take every layer off the map, then draw the
     * current mode: an empty markers layer when there are no articles, the
     * cluster layer, or markers (with a warning toast in heatmap mode).
     */
    method RefreshMapVisualization()
      requires Valid()
      modifies this`markersOnMap, this`clusterOnMap, this`markers, this`clusterMarkers, this`articlesByCountry, this`toasts
      ensures Valid()
      ensures MapLayers() == Redraw(allArticles, visualization, capitals, old(MapLayers()))
    {
      markersOnMap := false;
      clusterOnMap := false;
      if allArticles == [] {
        markersOnMap := true;
        markers := [];
        return;
      }
      match visualization {
        case ClustersMode =>
          CreateClusterVisualization();
        case HeatmapMode =>
          toasts := toasts + [HeatmapUnavailable];
          CreateMarkerVisualization();
        case MarkersMode =>
          CreateMarkerVisualization();
      }
    }

    /** `toggleVisualization`: select the clicked mode, or markers when it was already active, and redraw. */
    method ToggleVisualization(clicked: Mode)
      requires Valid()
      modifies this`visualization, this`markersOnMap, this`clusterOnMap, this`markers, this`clusterMarkers,
               this`articlesByCountry, this`toasts
      ensures Valid()
      ensures visualization == Toggled(old(visualization), clicked)
      ensures MapLayers() == Redraw(allArticles, visualization, capitals, old(MapLayers()))
    {
      visualization := Toggled(visualization, clicked);
      RefreshMapVisualization();
    }

    /**
     * `showModal`: open the modal on a country's stored articles at page 1;
     * a country with no stored articles only gets a warning toast.
     */
    method ShowModal(country: string)
      requires Valid()
      modifies this`toasts, this`modalData, this`modalOpen, this`modalArticles, this`modalPagination
      ensures Valid()
      ensures country !in articlesByCountry ==>
        && toasts == old(toasts) + [NoArticlesForRegion]
        && modalData == old(modalData) && modalOpen == old(modalOpen)
        && modalArticles == old(modalArticles) && modalPagination == old(modalPagination)
      ensures country in articlesByCountry ==>
        var list := articlesByCountry[country];
        && toasts == old(toasts) && modalData == ModalData(Some(country), list, 1) && modalOpen
        && modalArticles == Listing(PageSlice(list, 1, ModalPageSize))
        && modalPagination == Buttons(Bar(TotalPages(|list|, ModalPageSize), 1), list)
    {
      if country !in articlesByCountry || articlesByCountry[country] == [] {
        toasts := toasts + [NoArticlesForRegion];
        return;
      }
      var list := articlesByCountry[country];
      modalData := ModalData(Some(country), list, 1);
      PageEmptyIff(list, 1, ModalPageSize);
      RenderModal(list, 1);
      modalOpen := true;
    }

    /** The modal's close button: hides it and keeps `modalData`, so export still reads the modal's list. */
    method CloseModal()
      modifies this`modalOpen
      ensures !modalOpen
      ensures modalData == old(modalData)
    {
      modalOpen := false;
    }

    /** `exportData` with `exportCSVFile`: nothing to export gives a warning and no file. */
    method ExportData(format: Format)
      modifies this`toasts, this`downloads
      ensures var data := ExportSource(modalData, allArticles);
        && (data == [] ==> toasts == old(toasts) + [NoDataToExport] && downloads == old(downloads))
        && (data != [] && format == CsvFormat ==>
              && downloads == old(downloads) + [CsvFile(ExportName(currentQuery) + ".csv", Csv.Document(data))]
              && toasts == old(toasts) + [CsvDownloaded])
        && (data != [] && format == JsonFormat ==>
              && downloads == old(downloads) + [JsonFile(ExportName(currentQuery) + ".json", data)]
              && toasts == old(toasts) + [JsonDownloaded])
    {
      var data := if Truthy(modalData.country) then modalData.articles else allArticles;
      var name := ExportName(currentQuery);
      if data == [] {
        toasts := toasts + [NoDataToExport];
        return;
      }
      if format == CsvFormat {
        var csv := Csv.ExportCsv(data);
        downloads := downloads + [CsvFile(name + ".csv", csv)];
        toasts := toasts + [CsvDownloaded];
      } else {
        downloads := downloads + [JsonFile(name + ".json", data)];
        toasts := toasts + [JsonDownloaded];
      }
    }

    /**
     * The synchronous start of `fetchNewsAndUpdate`: while a request is in
     * flight nothing happens; otherwise the gate closes and the request for
     * the current query goes out.
     */
    method BeginFetch() returns (request: Option<NewsRequest>)
      modifies this`isLoading
      ensures old(isLoading) ==> request == None && isLoading
      ensures !old(isLoading) ==> request == Some(RequestFor(currentQuery)) && isLoading
    {
      if isLoading {
        return None;
      }
      isLoading := true;
      request := Some(RequestFor(currentQuery));
    }

    /** The success path of `fetchNewsAndUpdate`: store the articles, redraw the map, render the feed. */
    method ShowArticles(list: seq<Article>)
      requires Valid() && list != []
      modifies this`toasts, this`feed, this`feedPagination, this`markers, this`allArticles,
               this`markersOnMap, this`clusterOnMap, this`clusterMarkers, this`articlesByCountry
      ensures Valid()
      ensures var sorted := SortArticles(list, currentQuery.sortBy);
        && allArticles == list
        && feed == FeedPanel(sorted, currentPage)
        && feedPagination == FeedButtons(sorted, currentPage)
      ensures MapLayers() == Redraw(list, visualization, capitals, old(MapLayers()))
    {
      allArticles := list;
      RefreshMapVisualization();
      ghost var drawn := MapLayers();
      SortAndRender();
      assert MapLayers() == drawn;
    }

    /** The error path of `fetchNewsAndUpdate`: a toast and the error panel. */
    method ShowLoadError()
      requires Valid()
      modifies this`toasts, this`feed
      ensures Valid() && feed == LoadError && toasts == old(toasts) + [LoadFailed]
    {
      toasts := toasts + [LoadFailed];
      feed := LoadError;
    }

    /** The empty path of `fetchNewsAndUpdate`: the "no results" panel, an empty markers layer and no articles. */
    method ShowNoData()
      requires Valid()
      modifies this`feed, this`markers, this`allArticles
      ensures Valid() && feed == NoResults && markers == [] && allArticles == []
    {
      feed := NoResults;
      markers := [];
      allArticles := [];
    }

    /**
     * The rest of `fetchNewsAndUpdate` once the response is in. A failure
     * shows the error panel; an empty answer empties the markers layer and the
     * article list; data replaces the list, redraws the map and the feed. The
     * gate reopens on every path. Neither the failure nor the empty path
     * touches the feed's pagination bar.
     */
    method CompleteFetch(result: FetchResult)
      requires Valid()
      modifies this`isLoading, this`toasts, this`feed, this`feedPagination, this`markers, this`allArticles,
               this`markersOnMap, this`clusterOnMap, this`clusterMarkers, this`articlesByCountry
      ensures Valid()
      ensures !isLoading
      ensures Classify(result) == Failed ==>
        && feed == LoadError && feedPagination == old(feedPagination) && allArticles == old(allArticles)
        && MapLayers() == old(MapLayers()).(toasts := old(toasts) + [LoadFailed])
      ensures Classify(result) == NoData ==>
        && feed == NoResults && allArticles == [] && feedPagination == old(feedPagination)
        && MapLayers() == old(MapLayers()).(markers := [])
      ensures Classify(result).Loaded? ==>
        var list := Classify(result).articles;
        var sorted := SortArticles(list, currentQuery.sortBy);
        && allArticles == list
        && feed == FeedPanel(sorted, currentPage)
        && feedPagination == FeedButtons(sorted, currentPage)
        && MapLayers() == Redraw(list, visualization, capitals, old(MapLayers()))
    {
      var outcome := Classify(result);
      match outcome {
        case Failed =>
          ShowLoadError();
        case NoData =>
          ShowNoData();
        case Loaded(list) =>
          ShowArticles(list);
      }
      isLoading := false;
    }
  }
}
