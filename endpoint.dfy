/**
 * The endpoint get_news.php: the method check, the parameter defaults and
 * whitelist, the argument list handed to the fetch script, and the ordered
 * chain of checks on the script's exit code and output that chooses the
 * response envelope. Starting the process and decoding JSON are parameters.
 */
module Endpoint {
  import opened Wrappers
  import Text
  import Timespan
  import Articles

  const DefaultKeyword: string := "earthquake"

  /** The longest `rawOutput` excerpt of an undecodable script output. */
  const RawOutputLimit: nat := 500

  /** The request: its HTTP method and the query parameters that are set. */
  datatype Request = Request(verb: string, q: Option<string>, timespan: Option<string>, country: Option<string>)

  /** What `proc_open` gives back: no process at all, or the exit code and both output streams. */
  datatype Process = StartFailed | Finished(code: int, stdout: string, stderr: string)

  /** The `query` object echoed in a successful response; a `null` country is `None`. */
  datatype QueryEcho = QueryEcho(keyword: string, timespan: string, country: Option<string>)

  /** The response envelopes the endpoint writes. */
  datatype Envelope =
    | MethodNotAllowed
    | ExecFailed
    | ScriptFailed(details: string, code: int)
    | NoResults
    | InvalidJson(rawOutput: string)
    | Success(query: QueryEcho, totalResults: nat, data: seq<Articles.Article>)
  {
    /** The HTTP status code sent with the envelope. */
    function HttpCode(): int
    {
      match this
      case MethodNotAllowed => 405
      case ExecFailed => 500
      case ScriptFailed(_, _) => 500
      case InvalidJson(_) => 500
      case _ => 200
    }

    /** The envelope's `status` field. */
    function Status(): string
    {
      match this
      case NoResults => "empty"
      case Success(_, _, _) => "success"
      case _ => "error"
    }
  }

  /** Every error envelope carries an error HTTP code and every other one 200. */
  lemma ErrorIffErrorCode(e: Envelope)
    ensures e.Status() == "error" <==> e.HttpCode() != 200
    ensures e.HttpCode() == 200 || e.HttpCode() == 405 || e.HttpCode() == 500
  {
  }

  /** PHP's `empty()` on a string: `""` and `"0"`. */
  predicate PhpEmpty(s: string)
  {
    s == "" || s == "0"
  }

  /** `$keyword`: the trimmed `q` when it is set, else the default; a blank `q` stays blank. */
  function KeywordParam(req: Request): string
  {
    if req.q.Some? then Text.Trim(req.q.value, Text.PhpSpace) else DefaultKeyword
  }

  /** `$timespan`: the parameter when it is whitelisted, else `24h`. */
  function TimespanParam(req: Request): string
  {
    Timespan.Normalize(req.timespan.GetOr(Timespan.Default))
  }

  /** `$country`: the trimmed parameter, or `""` when it is not set. */
  function CountryParam(req: Request): string
  {
    if req.country.Some? then Text.Trim(req.country.value, Text.PhpSpace) else ""
  }

  /** The arguments `$command` passes to the script, in order. */
  function Arguments(req: Request): (args: seq<string>)
    ensures |args| == 2 || |args| == 3
    ensures args[0] == KeywordParam(req) && args[1] == TimespanParam(req)
    ensures args[1] in Timespan.Allowed
    ensures |args| == 3 <==> !PhpEmpty(CountryParam(req))
    ensures |args| == 3 ==> args[2] == CountryParam(req)
  {
    [KeywordParam(req), TimespanParam(req)] + (if PhpEmpty(CountryParam(req)) then [] else [CountryParam(req)])
  }

  /** The echoed query of a successful response. */
  function EchoOf(req: Request): QueryEcho
  {
    QueryEcho(KeywordParam(req), TimespanParam(req), if PhpEmpty(CountryParam(req)) then None else Some(CountryParam(req)))
  }

  /**
   * The chain of checks after the script has run: a failed start, then a
   * nonzero exit code, then empty output, then output that does not decode;
   * only output that decodes is a success.
   */
  function Respond(p: Process, echo: QueryEcho, decode: string -> Option<seq<Articles.Article>>): (e: Envelope)
    ensures p.StartFailed? ==> e == ExecFailed
    ensures p.Finished? && p.code != 0 ==> e == ScriptFailed(p.stderr, p.code)
    ensures e == NoResults <==> p.Finished? && p.code == 0 && PhpEmpty(p.stdout)
    ensures e.InvalidJson? <==> p.Finished? && p.code == 0 && !PhpEmpty(p.stdout) && decode(p.stdout).None?
    ensures e.InvalidJson? ==>
              Text.IsPrefix(e.rawOutput, p.stdout)
              && |e.rawOutput| == (if |p.stdout| < RawOutputLimit then |p.stdout| else RawOutputLimit)
    ensures e.Success? <==> p.Finished? && p.code == 0 && !PhpEmpty(p.stdout) && decode(p.stdout).Some?
    ensures e.Success? ==> e.query == echo && e.data == decode(p.stdout).value && e.totalResults == |e.data|
  {
    match p
    case StartFailed => ExecFailed
    case Finished(code, stdout, stderr) =>
      if code != 0 then ScriptFailed(stderr, code)
      else if PhpEmpty(stdout) then NoResults
      else
        match decode(stdout)
        case None => InvalidJson(if |stdout| < RawOutputLimit then stdout else stdout[..RawOutputLimit])
        case Some(data) => Success(echo, |data|, data)
  }

  /**
   * The whole endpoint: a non-GET request is refused before anything runs;
   * otherwise the parameters are read, the argument list is built (the country
   * only when it is not empty) and the script is run through `run`. `started`
   * is the argument list the script was given, `None` when it was not run.
   */
  method HandleRequest(req: Request, run: seq<string> -> Process, decode: string -> Option<seq<Articles.Article>>)
    returns (response: Envelope, started: Option<seq<string>>)
    ensures req.verb != "GET" ==> response == MethodNotAllowed && started == None
    ensures req.verb == "GET" ==>
              started == Some(Arguments(req))
              && response == Respond(run(Arguments(req)), EchoOf(req), decode)
  {
    if req.verb != "GET" {
      return MethodNotAllowed, None;
    }
    var keyword, timespan, country := KeywordParam(req), TimespanParam(req), CountryParam(req);
    var command := [keyword, timespan];
    if !PhpEmpty(country) {
      command := command + [country];
    }
    assert command == Arguments(req);
    started := Some(command);
    var echo := QueryEcho(keyword, timespan, if PhpEmpty(country) then None else Some(country));
    match run(command) {
      case StartFailed =>
        response := ExecFailed;
      case Finished(code, output, error) =>
        if code != 0 {
          response := ScriptFailed(error, code);
        } else if PhpEmpty(output) {
          response := NoResults;
        } else {
          match decode(output) {
            case None =>
              response := InvalidJson(if |output| < RawOutputLimit then output else output[..RawOutputLimit]);
            case Some(decoded) =>
              response := Success(echo, |decoded|, decoded);
          }
        }
    }
    assert response == Respond(run(command), echo, decode);
  }

  /** A `q` made only of white space is sent to the script as an empty keyword. */
  lemma BlankKeywordStaysBlank(req: Request)
    requires req.q.Some? && Text.AllSpace(req.q.value, Text.PhpSpace)
    ensures Arguments(req)[0] == ""
  {
  }

  /** A timespan outside the whitelist, or none, becomes `24h`; a whitelisted one is kept. */
  lemma TimespanFallback(req: Request)
    ensures req.timespan.Some? && req.timespan.value in Timespan.Allowed ==> Arguments(req)[1] == req.timespan.value
    ensures req.timespan.None? || req.timespan.value !in Timespan.Allowed ==> Arguments(req)[1] == "24h"
  {
  }
}
