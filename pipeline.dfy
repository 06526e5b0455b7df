/**
 * How the three tiers meet: the request script.js builds is what
 * get_news.php reads, the argument list get_news.php builds is what
 * src/gdelt.py parses, and what src/gdelt.py prints and exits with is what
 * get_news.php turns into a response envelope for script.js.
 */
module Pipeline {
  import opened Wrappers
  import Text
  import Timespan
  import Articles
  import App
  import Endpoint
  import Gdelt

  /** The GET request to `get_news.php` that the browser sends for `r`. */
  function RequestOf(r: App.NewsRequest): (req: Endpoint.Request)
    ensures req.verb == "GET"
    ensures req.q == r.q && req.timespan == Some(r.timespan) && req.country == r.country
  {
    Endpoint.Request("GET", r.q, Some(r.timespan), r.country)
  }

  /** The arguments the fetch script parses when the browser asks for `q`. */
  function ScriptArgs(q: App.Query): Gdelt.Args
  {
    Gdelt.ParseArgs(Endpoint.Arguments(RequestOf(App.RequestFor(q))))
  }

  /**
   * The window the script searches is the client's window when it is
   * whitelisted and `24h` otherwise, and the endpoint echoes that same window:
   * the client itself never checks the window it sends.
   */
  lemma TimespanReachesScript(q: App.Query)
    ensures ScriptArgs(q).timespan == Timespan.Normalize(q.timespan)
    ensures Endpoint.EchoOf(RequestOf(App.RequestFor(q))).timespan == ScriptArgs(q).timespan
  {
    var argv := Endpoint.Arguments(RequestOf(App.RequestFor(q)));
    assert argv[1] == Timespan.Normalize(q.timespan);
    Gdelt.AllowedUnpadded(argv[1]);
    assert Gdelt.Arg(argv, 1) == Some(argv[1]);
  }

  /** With no keyword the browser leaves `q` off, and both tiers fall back to `earthquake`. */
  lemma EmptyKeywordSearchesDefault(q: App.Query)
    requires q.keyword == ""
    ensures ScriptArgs(q).keyword == Gdelt.DefaultKeyword
    ensures Endpoint.EchoOf(RequestOf(App.RequestFor(q))).keyword == Endpoint.DefaultKeyword
  {
    var argv := Endpoint.Arguments(RequestOf(App.RequestFor(q)));
    assert argv[0] == Gdelt.DefaultKeyword;
    Text.TrimUnpadded(Gdelt.DefaultKeyword, Text.PySpace);
    Gdelt.ArgStable(argv, 0, Gdelt.DefaultKeyword);
  }

  /**
   * A keyword made only of white space (one taken from the page URL is not
   * trimmed by the browser) reaches the endpoint, which trims it to `""` and
   * echoes `""`; the script then drops the blank argument and searches for
   * `earthquake` instead.
   */
  lemma BlankKeywordSearchesDefault(q: App.Query)
    requires q.keyword != "" && Text.AllSpace(q.keyword, Text.PhpSpace)
    ensures Endpoint.EchoOf(RequestOf(App.RequestFor(q))).keyword == ""
    ensures ScriptArgs(q).keyword == Gdelt.DefaultKeyword
  {
    var argv := Endpoint.Arguments(RequestOf(App.RequestFor(q)));
    assert argv[0] == "";
    assert Text.AllSpace(argv[0], Text.PySpace);
  }

  /**
   * A keyword with no white space at either end reaches the script unchanged,
   * and the endpoint echoes it unchanged.
   */
  lemma KeywordReachesScript(q: App.Query)
    requires q.keyword != ""
    requires !Text.PhpSpace(q.keyword[0]) && !Text.PhpSpace(q.keyword[|q.keyword| - 1])
    requires !Text.PySpace(q.keyword[0]) && !Text.PySpace(q.keyword[|q.keyword| - 1])
    ensures ScriptArgs(q).keyword == q.keyword
    ensures Endpoint.EchoOf(RequestOf(App.RequestFor(q))).keyword == q.keyword
  {
    var argv := Endpoint.Arguments(RequestOf(App.RequestFor(q)));
    Text.TrimUnpadded(q.keyword, Text.PhpSpace);
    assert argv[0] == q.keyword;
    Text.TrimUnpadded(q.keyword, Text.PySpace);
    assert Gdelt.Arg(argv, 0) == Some(q.keyword);
  }

  /**
   * The country `0` is "empty" to PHP: the endpoint leaves it off the command
   * line and echoes `null`, so the script searches every country.
   */
  lemma CountryZeroIsDropped(q: App.Query)
    requires q.country == "0"
    ensures ScriptArgs(q).country == None
    ensures Endpoint.EchoOf(RequestOf(App.RequestFor(q))).country == None
  {
    var req := RequestOf(App.RequestFor(q));
    Text.TrimUnpadded("0", Text.PhpSpace);
    assert Endpoint.CountryParam(req) == "0";
    assert |Endpoint.Arguments(req)| == 2;
  }

  /**
   * The process `get_news.php` sees when the script ends with `outcome`:
   * records are printed by `render`, an empty result as `[]` and a newline,
   * and an exit is code 1 with the error report `report` on standard error.
   * A run that ends normally has still written its debug lines `debug` to
   * standard error.
   */
  function ScriptProcess(outcome: Gdelt.Outcome, render: seq<Gdelt.Scored> -> string, report: string, debug: string): (p: Endpoint.Process)
    ensures p.Finished?
    ensures p.code == 0 <==> !outcome.Exited?
    ensures outcome.Exited? ==> p.stdout == "" && p.stderr == report
    ensures !outcome.Exited? ==> p.stderr == debug
    ensures outcome.Printed? ==> p.stdout == render(outcome.records)
  {
    match outcome
    case Printed(records) => Endpoint.Finished(0, render(records), debug)
    case PrintedEmpty => Endpoint.Finished(0, "[]\n", debug)
    case Exited => Endpoint.Finished(1, "", report)
  }

  /** A failing script becomes an HTTP 500 error envelope carrying its exit code 1 and its report. */
  lemma ScriptFailureIsServerError(argv: seq<string>, search: Gdelt.Filter -> Gdelt.Search,
                                   render: seq<Gdelt.Scored> -> string, report: string, debug: string,
                                   echo: Endpoint.QueryEcho, decode: string -> Option<seq<Articles.Article>>)
    requires search(Gdelt.FilterFor(Gdelt.ParseArgs(argv))).SearchFailed?
    ensures Endpoint.Respond(ScriptProcess(Gdelt.RunScript(argv, search), render, report, debug), echo, decode)
            == Endpoint.ScriptFailed(report, 1)
    ensures Endpoint.ScriptFailed(report, 1).HttpCode() == 500
  {
  }

  /**
   * A search that finds nothing is printed as an empty list, which the
   * endpoint reports as a `success` with no results (not as `empty`), and
   * which the browser then shows as "no results".
   */
  lemma EmptySearchIsSuccessWithoutData(argv: seq<string>, search: Gdelt.Filter -> Gdelt.Search,
                                        render: seq<Gdelt.Scored> -> string, report: string, debug: string,
                                        echo: Endpoint.QueryEcho, decode: string -> Option<seq<Articles.Article>>)
    requires search(Gdelt.FilterFor(Gdelt.ParseArgs(argv))).Found?
    requires search(Gdelt.FilterFor(Gdelt.ParseArgs(argv))).table.rows == []
    requires decode("[]\n") == Some([])
    ensures Endpoint.Respond(ScriptProcess(Gdelt.RunScript(argv, search), render, report, debug), echo, decode)
            == Endpoint.Success(echo, 0, [])
    ensures Endpoint.Success(echo, 0, []).Status() == "success"
  {
    Gdelt.EmptyResultPrintsEmptyList(argv, search);
    EmptyListIsSuccess(ScriptProcess(Gdelt.PrintedEmpty, render, report, debug), echo, decode);
  }

  /** The output `[]` and a newline, with exit code 0, is a successful response with no data, whatever is on standard error. */
  lemma EmptyListIsSuccess(p: Endpoint.Process, echo: Endpoint.QueryEcho, decode: string -> Option<seq<Articles.Article>>)
    requires p.Finished? && p.code == 0 && p.stdout == "[]\n" && decode("[]\n") == Some([])
    ensures Endpoint.Respond(p, echo, decode) == Endpoint.Success(echo, 0, [])
  {
    assert !Endpoint.PhpEmpty(p.stdout) by {
      assert |p.stdout| == 3;
    }
  }

  /** The browser shows a `success` response with an empty `data` list as "no results". */
  lemma EmptySuccessShowsNoResults()
    ensures App.Classify(App.Json(Some("success"), Some([]))) == App.NoData
  {
    assert Some("success") != Some("error") && Some("success") != Some("empty") by {
      assert "success"[0] != "error"[0] && "success"[0] != "empty"[0];
    }
  }
}
