/**
 * The plugin's run: do_it!, parse_yaml_config, call_api and
 * retrieve_pr_counts (Dev/Git/get_pull_requests_bitbar.15m.rb:95-197).
 * Each repo's request is answered by `network`, which is given the number
 * of requests sent before it and the request itself. Everything the plugin
 * prints is collected as the list of arguments passed to puts.
 */
module PullRequests {
  import opened Wrappers
  import opened RubyErrors
  import opened Palette
  import RubyText
  import Config
  import Services
  import Responses
  import RepoLoop

  type Network = (nat, Services.Request) -> Responses.Reply

  /** The request retrieve_pr_counts sends for a repo of a known service. */
  function RequestFor(repo: Config.RepoConfig, k: Services.ServiceKind): Services.Request
  {
    Services.BuildRequest(Services.Endpoint(k, repo.repo), Services.Token(k, repo.username, repo.appPassword))
  }

  /** The count pr_count_for_bitbucket or pr_count_for_github takes from a reply. */
  function CountOf(k: Services.ServiceKind, reply: Responses.Reply): Result<int, RubyError>
  {
    match reply
    case Failed(m) => Err(Transport(m))
    case Received(link, body) =>
      match k
      case Bitbucket => Responses.BitbucketCount(body)
      case GitHub => Responses.GithubCount(link, body)
  }

  /** The colour of a repo line when the repo has no open pull request. */
  const ZeroColor: string := "color=#28a745"

  /** The menu line of one repo: its name, "- n" when n is positive, green when n is zero, and a link to its page. */
  function HeaderLine(name: Option<string>, count: int, humanUrl: string): (line: string)
    ensures Services.Interpolate(name) + " " <= line
    ensures |line| >= |" href=" + humanUrl| && line[|line| - |" href=" + humanUrl|..] == " href=" + humanUrl
  {
    Services.Interpolate(name) + " " + (if count > 0 then "- " + RubyText.IntToString(count) else "") +
    "| " + (if count == 0 then ZeroColor else "") + " href=" + humanUrl
  }

  /**
   * The repo's line shows the count exactly when it is positive, and the
   * count can be read back from it; a zero count shows the green colour
   * instead, and a negative one shows neither.
   */
  lemma HeaderLineShows(name: Option<string>, count: int, url: string)
    ensures var nm := Services.Interpolate(name);
      count > 0 ==> HeaderLine(name, count, url) == nm + " - " + RubyText.IntToString(count) + "| " + " href=" + url
    ensures var nm := Services.Interpolate(name); var line := HeaderLine(name, count, url);
      count > 0 ==> |line| > |nm| + 3 && line[..|nm| + 3] == nm + " - " && RubyText.ToI(line[|nm| + 3..]) == count
    ensures var nm := Services.Interpolate(name);
      count <= 0 ==> HeaderLine(name, count, url) == nm + " | " + (if count == 0 then ZeroColor else "") + " href=" + url
  {
    if count > 0 {
      PositiveHeaderLine(Services.Interpolate(name), HeaderLine(name, count, url), count, url);
    }
  }

  /** A line written as the repo line of a positive count reads the count back after the name. */
  lemma PositiveHeaderLine(nm: string, line: string, count: int, url: string)
    requires count > 0 && line == (nm + " - ") + (RubyText.IntToString(count) + ("| " + " href=" + url))
    ensures line == nm + " - " + RubyText.IntToString(count) + "| " + " href=" + url
    ensures |line| > |nm| + 3 && line[..|nm| + 3] == nm + " - " && RubyText.ToI(line[|nm| + 3..]) == count
  {
    var digits := RubyText.IntToString(count);
    var rest := "| " + " href=" + url;
    assert line == nm + " - " + digits + "| " + " href=" + url;
    assert line[|nm| + 3..] == digits + rest;
    assert RubyText.ToI(digits + rest) == count by { RubyText.ToIOfIntToString(count, rest); }
  }

  /** What handling one reply did: the count it added, the lines it appended to repo_details, and the error it raised, if any. */
  datatype Attempt = Attempt(added: int, details: seq<string>, error: Option<RubyError>)

  /**
   * The block given to call_api, with call_api's rescue: a count is added
   * as soon as it is known, the repo's line is appended in bitbar mode, and
   * then a Bitbucket repo raises on `concat nil` while a GitHub repo appends
   * the lines of its pull requests.
   */
  function AttemptRepo(repo: Config.RepoConfig, k: Services.ServiceKind, reply: Responses.Reply, bitbar: bool): (a: Attempt)
    ensures a.error.None? ==> k == Services.GitHub
    ensures a.added == (if CountOf(k, reply).Ok? then CountOf(k, reply).value else 0)
    ensures CountOf(k, reply).Err? ==> a.details == [] && a.error == Some(CountOf(k, reply).error)
  {
    match CountOf(k, reply)
    case Err(e) => Attempt(0, [], Some(e))
    case Ok(n) =>
      var header := if bitbar then [HeaderLine(repo.name, n, Services.HumanUrl(k, repo.repo))] else [];
      match k
      case Bitbucket => Attempt(n, header, Some(ConcatNil))
      case GitHub =>
        match Responses.GithubDetails(reply.body)
        case Err(e) => Attempt(n, header, Some(e))
        case Ok(lines) => Attempt(n, header + lines, None)
  }

  /**
   * A Bitbucket repo whose count is read still has that count added and,
   * in bitbar mode, its line shown, although the block then raises.
   */
  lemma BitbucketCountSurvives(repo: Config.RepoConfig, reply: Responses.Reply, bitbar: bool)
    requires CountOf(Services.Bitbucket, reply).Ok?
    ensures var a := AttemptRepo(repo, Services.Bitbucket, reply, bitbar);
      var n := CountOf(Services.Bitbucket, reply).value;
      a.added == n && a.error == Some(ConcatNil) &&
      a.details == (if bitbar then [HeaderLine(repo.name, n, Services.HumanUrl(Services.Bitbucket, repo.repo))] else [])
  {
  }

  /**
   * A GitHub repo succeeds exactly when the request, the count and the
   * pull-request lines all succeed; it then appends its line (in bitbar
   * mode) followed by three lines per pull request.
   */
  lemma GithubAttempt(repo: Config.RepoConfig, reply: Responses.Reply, bitbar: bool)
    ensures var a := AttemptRepo(repo, Services.GitHub, reply, bitbar);
      (a.error.None? <==>
        reply.Received? && Responses.GithubCount(reply.link, reply.body).Ok? &&
        Responses.GithubDetails(reply.body).Ok?) &&
      (a.error.None? ==>
        a.added == Responses.GithubCount(reply.link, reply.body).value &&
        a.details == (if bitbar then [HeaderLine(repo.name, a.added, Services.HumanUrl(Services.GitHub, repo.repo))] else []) +
                     Responses.GithubDetails(reply.body).value)
  {
  }

  /**
   * A GitHub reply without a Link header whose body is a JSON object with n
   * keys counts n, as Hash#count does; the block then raises when
   * pr_details_for_github indexes a [key, value] pair with "title".
   */
  lemma GithubObjectCountsKeys(repo: Config.RepoConfig, n: nat, size: Responses.SizeField, bitbar: bool)
    requires n > 0
    ensures var a := AttemptRepo(repo, Services.GitHub, Responses.Received(None, Responses.Object(n, size)), bitbar);
      a.added == n && a.error == Some(ArrayIndexedByString)
  {
  }

  /** bitbar mode changes neither the count a repo adds nor whether and what its block raises. */
  lemma AttemptIgnoresMode(repo: Config.RepoConfig, k: Services.ServiceKind, reply: Responses.Reply, bitbar: bool)
    ensures AttemptRepo(repo, k, reply, bitbar).added == AttemptRepo(repo, k, reply, false).added
    ensures AttemptRepo(repo, k, reply, bitbar).error == AttemptRepo(repo, k, reply, false).error
  {
    if CountOf(k, reply).Ok? && k == Services.GitHub {
      match Responses.GithubDetails(reply.body)
      case Err(e) =>
      case Ok(lines) =>
    }
  }

  /** What call_api prints when the block raises; the details only in bitbar mode. */
  function ErrorLines(e: RubyError, bitbar: bool): (lines: seq<string>)
    ensures |lines| == (if bitbar then 3 else 1) && lines[0] == ErrorMark
    ensures bitbar ==> lines[1..] == ["---", "Got Error: " + Message(e)]
  {
    [ErrorMark] + (if bitbar then ["---", "Got Error: " + Message(e)] else [])
  }

  const ErrorMark: string := "? " + PrGlyph

  /** The number of lines call_api prints for a block that raised. */
  function ErrorSize(bitbar: bool): nat { if bitbar then 3 else 1 }

  /** What call_api prints after the block: the error lines when it raised, else nothing. */
  function ErrorOutput(error: Option<RubyError>, bitbar: bool): (lines: seq<string>)
    ensures |lines| == (if error.Some? then ErrorSize(bitbar) else 0)
    ensures !bitbar ==> RepoLoop.Every(lines, ErrorMark)
    ensures error.Some? ==> lines[0] == ErrorMark
    ensures error.Some? && bitbar ==> lines[1..] == ["---", "Got Error: " + Message(error.value)]
  {
    if error.Some? then ErrorLines(error.value, bitbar) else []
  }

  /**
   * The turn of repo i in the loop of retrieve_pr_counts: an unknown service
   * raises before anything is sent; a known one sends its request, has the
   * reply handled, and call_api prints the error when the block raised.
   */
  function RepoTurn(repo: Config.RepoConfig, i: nat, network: Network, bitbar: bool): (t: RepoLoop.Turn)
    ensures t.Unknown? <==> !Known(repo)
    ensures t.Visited? ==> t.request == RequestFor(repo, Services.Lookup(repo.service).value) && |t.printed| <= 3
  {
    match Services.Lookup(repo.service)
    case None => RepoLoop.Unknown
    case Some(k) =>
      var request := RequestFor(repo, k);
      var a := AttemptRepo(repo, k, network(i, request), bitbar);
      RepoLoop.Visited(request, a.added, a.details, ErrorOutput(a.error, bitbar))
  }

  function Visit(network: Network, bitbar: bool): RepoLoop.Visitor
  {
    (repo: Config.RepoConfig, i: nat) => RepoTurn(repo, i, network, bitbar)
  }

  /** The loop of retrieve_pr_counts over the given repos. */
  function Retrieve(repos: seq<Config.RepoConfig>, network: Network, bitbar: bool): RepoLoop.Progress
  {
    RepoLoop.Loop(repos, Visit(network, bitbar))
  }

  predicate Known(repo: Config.RepoConfig) { Services.Lookup(repo.service).Some? }

  /** Repo i has a known service and the i-th request is the one built for it. */
  predicate RequestedAt(repos: seq<Config.RepoConfig>, requests: seq<Services.Request>, i: nat)
    requires i < |repos| && i < |requests|
  {
    Known(repos[i]) && requests[i] == RequestFor(repos[i], Services.Lookup(repos[i].service).value)
  }

  /**
   * Every repo is requested once, in the order of the configuration, however
   * the repos before it fared; the run stops, without a request, at the
   * first repo whose service is unknown.
   */
  lemma RequestsInOrder(repos: seq<Config.RepoConfig>, network: Network, bitbar: bool)
    ensures Retrieve(repos, network, bitbar).aborted <==> |Retrieve(repos, network, bitbar).requests| < |repos|
    ensures forall i :: 0 <= i < |Retrieve(repos, network, bitbar).requests| ==> RequestedAt(repos, Retrieve(repos, network, bitbar).requests, i)
    ensures Retrieve(repos, network, bitbar).aborted ==> !Known(repos[|Retrieve(repos, network, bitbar).requests|])
  {
    var visit := Visit(network, bitbar);
    var p := RepoLoop.Loop(repos, visit);
    RepoLoop.LoopRequests(repos, visit);
    forall i | 0 <= i < |p.requests| ensures RequestedAt(repos, p.requests, i) {
      assert RepoLoop.SentAt(repos, p.requests, visit, i);
      assert visit(repos[i], i) == RepoTurn(repos[i], i, network, bitbar);
    }
    if p.aborted {
      assert visit(repos[|p.requests|], |p.requests|) == RepoTurn(repos[|p.requests|], |p.requests|, network, bitbar);
    }
  }

  /** The run is aborted exactly when some repo names an unknown service. */
  lemma AbortedIffUnknown(repos: seq<Config.RepoConfig>, network: Network, bitbar: bool)
    ensures Retrieve(repos, network, bitbar).aborted <==> exists i :: 0 <= i < |repos| && !Known(repos[i])
  {
    var p := Retrieve(repos, network, bitbar);
    RequestsInOrder(repos, network, bitbar);
    if p.aborted {
      assert !Known(repos[|p.requests|]);
    } else {
      forall i | 0 <= i < |repos| ensures Known(repos[i]) {
        assert RequestedAt(repos, p.requests, i);
      }
    }
  }

  /** The count repo i adds to the total: its count when one was read, else 0. */
  function Added(repo: Config.RepoConfig, i: nat, network: Network): int
  {
    match Services.Lookup(repo.service)
    case None => 0
    case Some(k) =>
      var c := CountOf(k, network(i, RequestFor(repo, k)));
      if c.Ok? then c.value else 0
  }

  /** The error handling repo i raises inside call_api, if any (the one of an unknown service is raised outside it). */
  function Raised(repo: Config.RepoConfig, i: nat, network: Network): Option<RubyError>
  {
    match Services.Lookup(repo.service)
    case None => None
    case Some(k) => AttemptRepo(repo, k, network(i, RequestFor(repo, k)), false).error
  }

  /** Whether handling repo i raises, so that call_api prints its error. */
  function Fails(repo: Config.RepoConfig, i: nat, network: Network): bool
  {
    Raised(repo, i, network).Some?
  }

  /** What repo i appends to repo_details before its block ends or raises. */
  function Appended(repo: Config.RepoConfig, i: nat, network: Network, bitbar: bool): seq<string>
  {
    match Services.Lookup(repo.service)
    case None => []
    case Some(k) => AttemptRepo(repo, k, network(i, RequestFor(repo, k)), bitbar).details
  }

  /**
   * The turn of a repo of a known service adds the count read from its
   * reply, and prints an error block exactly when handling it raises, the
   * bare mark outside bitbar mode.
   */
  lemma TurnFacts(repo: Config.RepoConfig, i: nat, network: Network, bitbar: bool)
    requires Known(repo)
    ensures var t := RepoTurn(repo, i, network, bitbar);
      t.Visited? && t.added == Added(repo, i, network) &&
      t.details == Appended(repo, i, network, bitbar) &&
      t.printed == ErrorOutput(Raised(repo, i, network), bitbar) &&
      |t.printed| == (if Fails(repo, i, network) then ErrorSize(bitbar) else 0) &&
      (!bitbar ==> RepoLoop.Every(t.printed, ErrorMark))
  {
    var k := Services.Lookup(repo.service).value;
    var reply := network(i, RequestFor(repo, k));
    var a := AttemptRepo(repo, k, reply, bitbar);
    AttemptIgnoresMode(repo, k, reply, bitbar);
    assert Raised(repo, i, network) == a.error;
    assert RepoTurn(repo, i, network, bitbar) == RepoLoop.Visited(RequestFor(repo, k), a.added, a.details, ErrorOutput(a.error, bitbar));
  }

  /** The count each repo adds, in the order of the repos. */
  function AddedCounts(repos: seq<Config.RepoConfig>, network: Network): (cs: seq<int>)
    ensures |cs| == |repos|
  {
    seq(|repos|, i requires 0 <= i < |repos| => Added(repos[i], i, network))
  }

  /** Whether each repo raises, in the order of the repos. */
  function Failures(repos: seq<Config.RepoConfig>, network: Network): (fs: seq<bool>)
    ensures |fs| == |repos|
  {
    seq(|repos|, i requires 0 <= i < |repos| => Fails(repos[i], i, network))
  }

  /** The turns of repos of known services, seen through the visitor: each is visited, adding its count and printing its error block. */
  lemma VisitFacts(repos: seq<Config.RepoConfig>, network: Network, bitbar: bool)
    requires forall i :: 0 <= i < |repos| ==> Known(repos[i])
    ensures forall i :: 0 <= i < |repos| ==> Visit(network, bitbar)(repos[i], i).Visited?
    ensures RepoLoop.AddedBy(repos, Visit(network, bitbar)) == AddedCounts(repos, network)
    ensures forall i :: 0 <= i < |repos| ==>
      RepoLoop.PrintedBy(repos, Visit(network, bitbar))[i] == (if Failures(repos, network)[i] then ErrorSize(bitbar) else 0)
    ensures !bitbar ==> forall i :: 0 <= i < |repos| ==> RepoLoop.Every(Visit(network, bitbar)(repos[i], i).printed, ErrorMark)
  {
    var visit := Visit(network, bitbar);
    forall i | 0 <= i < |repos|
      ensures visit(repos[i], i).Visited?
      ensures RepoLoop.AddedBy(repos, visit)[i] == AddedCounts(repos, network)[i]
      ensures RepoLoop.PrintedBy(repos, visit)[i] == (if Failures(repos, network)[i] then ErrorSize(bitbar) else 0)
      ensures !bitbar ==> RepoLoop.Every(visit(repos[i], i).printed, ErrorMark)
    {
      TurnFacts(repos[i], i, network, bitbar);
    }
  }

  /** The error blocks call_api prints for the repos, one repo after the other. */
  function ErrorsOf(repos: seq<Config.RepoConfig>, network: Network, bitbar: bool): seq<string>
    decreases |repos|
  {
    if repos == [] then []
    else
      var n := |repos| - 1;
      ErrorsOf(repos[..n], network, bitbar) + ErrorOutput(Raised(repos[n], n, network), bitbar)
  }

  /** What the repos append to repo_details, one repo after the other. */
  function MenuOf(repos: seq<Config.RepoConfig>, network: Network, bitbar: bool): seq<string>
    decreases |repos|
  {
    if repos == [] then []
    else
      var n := |repos| - 1;
      MenuOf(repos[..n], network, bitbar) + Appended(repos[n], n, network, bitbar)
  }

  /** For repos of known services, what the turns print and append is what the repos raise and append. */
  lemma {:induction false} TurnLines(repos: seq<Config.RepoConfig>, network: Network, bitbar: bool)
    requires forall i :: 0 <= i < |repos| ==> Known(repos[i])
    ensures RepoLoop.PrintedOf(repos, Visit(network, bitbar)) == ErrorsOf(repos, network, bitbar)
    ensures RepoLoop.DetailsOf(repos, Visit(network, bitbar)) == MenuOf(repos, network, bitbar)
    decreases |repos|
  {
    if repos != [] {
      var n := |repos| - 1;
      var init := repos[..n];
      assert forall i :: 0 <= i < n ==> init[i] == repos[i];
      TurnLines(init, network, bitbar);
      TurnFacts(repos[n], n, network, bitbar);
      assert Visit(network, bitbar)(repos[n], n) == RepoTurn(repos[n], n, network, bitbar);
    }
  }

  /**
   * What the loop leaves, whatever the services answer: the printed lines
   * are the error blocks of the repos it got through, in config order, and
   * repo_details is "---" followed by what those repos appended, in the same
   * order; a repo of an unknown service and the repos after it add nothing.
   */
  lemma RetrieveLines(repos: seq<Config.RepoConfig>, network: Network, bitbar: bool)
    ensures var p := Retrieve(repos, network, bitbar); var done := repos[..|p.requests|];
      p.printed == ErrorsOf(done, network, bitbar) &&
      p.details == ["---"] + MenuOf(done, network, bitbar)
  {
    var p := Retrieve(repos, network, bitbar);
    var done := repos[..|p.requests|];
    RepoLoop.LoopLines(repos, Visit(network, bitbar));
    forall i | 0 <= i < |done| ensures Known(done[i]) {
      RequestsInOrder(repos, network, bitbar);
      assert RequestedAt(repos, p.requests, i);
      assert done[i] == repos[i];
    }
    TurnLines(done, network, bitbar);
  }

  /**
   * Failure isolation, for the menu: a Bitbucket repo the loop got through
   * whose count was read keeps its line in repo_details, in bitbar mode,
   * although its block then raised on `concat nil`.
   */
  lemma BitbucketLineInMenu(repos: seq<Config.RepoConfig>, network: Network, i: nat)
    requires i < |Retrieve(repos, network, true).requests|
    requires Services.Lookup(repos[i].service) == Some(Services.Bitbucket)
    requires CountOf(Services.Bitbucket, network(i, RequestFor(repos[i], Services.Bitbucket))).Ok?
    ensures var n := CountOf(Services.Bitbucket, network(i, RequestFor(repos[i], Services.Bitbucket))).value;
      HeaderLine(repos[i].name, n, Services.HumanUrl(Services.Bitbucket, repos[i].repo)) in Retrieve(repos, network, true).details
  {
    var visit := Visit(network, true);
    var p := Retrieve(repos, network, true);
    var done := repos[..|p.requests|];
    RepoLoop.LoopLines(repos, visit);
    var reply := network(i, RequestFor(repos[i], Services.Bitbucket));
    BitbucketCountSurvives(repos[i], reply, true);
    TurnFacts(repos[i], i, network, true);
    assert done[i] == repos[i] && visit(done[i], i) == RepoTurn(repos[i], i, network, true);
    RepoLoop.DetailsOfHolds(done, visit, i, 0);
  }

  /**
   * Failure isolation, for the total: when every service is known, the
   * total is the sum of the counts read, repo by repo, whatever failed
   * before or after reading them.
   */
  lemma TotalIsSum(repos: seq<Config.RepoConfig>, network: Network, bitbar: bool)
    requires forall i :: 0 <= i < |repos| ==> Known(repos[i])
    ensures !Retrieve(repos, network, bitbar).aborted
    ensures Retrieve(repos, network, bitbar).total == RepoLoop.Sum(AddedCounts(repos, network))
  {
    VisitFacts(repos, network, bitbar);
    RepoLoop.LoopTotals(repos, Visit(network, bitbar), ErrorMark);
  }

  /**
   * Failure isolation, for the error output: when every service is known,
   * call_api prints one error block per repo that raised: "? " alone
   * outside bitbar mode, followed by "---" and the message in bitbar mode.
   */
  lemma ErrorsPrinted(repos: seq<Config.RepoConfig>, network: Network, bitbar: bool)
    requires forall i :: 0 <= i < |repos| ==> Known(repos[i])
    ensures Retrieve(repos, network, bitbar).printed == ErrorsOf(repos, network, bitbar)
    ensures |Retrieve(repos, network, bitbar).printed| == ErrorSize(bitbar) * RepoLoop.CountTrue(Failures(repos, network))
    ensures !bitbar ==> RepoLoop.Every(Retrieve(repos, network, bitbar).printed, ErrorMark)
  {
    var visit := Visit(network, bitbar);
    VisitFacts(repos, network, bitbar);
    RepoLoop.LoopTotals(repos, visit, ErrorMark);
    RepoLoop.SumOfFlags(RepoLoop.PrintedBy(repos, visit), Failures(repos, network), ErrorSize(bitbar));
    RetrieveLines(repos, network, bitbar);
    assert repos[..|repos|] == repos;
  }

  /**
   * A repo whose request fails adds nothing to the total and prints its
   * error block; by TotalIsSum the counts of the other repos stay in.
   */
  lemma FailedRequestAddsNothing(repo: Config.RepoConfig, i: nat, network: Network)
    requires Known(repo) && network(i, RequestFor(repo, Services.Lookup(repo.service).value)).Failed?
    ensures Added(repo, i, network) == 0 && Fails(repo, i, network)
  {
  }

  /** Every Bitbucket repo raises after its count is read, so outside bitbar mode each one prints "? ". */
  lemma EveryBitbucketRepoFails(repo: Config.RepoConfig, i: nat, network: Network)
    requires Services.Lookup(repo.service) == Some(Services.Bitbucket)
    ensures Fails(repo, i, network)
  {
  }

  /**
   * The summary line, printed after any error blocks: the total when it is
   * positive, otherwise the check mark (bitbar) or the bare icons.
   */
  function SummaryLine(total: int, bitbar: bool): (line: string)
    ensures total > 0 ==> ColorWhite + RubyText.IntToString(total) + " " + PrGlyph <= line
    ensures total <= 0 ==> (if bitbar then ColorGreen + CheckGlyph else CheckGlyph) <= line
  {
    if total > 0 then
      ColorWhite + RubyText.IntToString(total) + " " + PrGlyph + AnsiClear + " | ansi=true size=16 " + FontHint
    else if bitbar then
      ColorGreen + CheckGlyph + " " + ColorBlue + PrGlyph + AnsiClear + " | ansi=true size=12 " + FontHint
    else CheckGlyph + " " + PrGlyph
  }

  /**
   * A positive total can be read back from the summary line, in either mode;
   * all totals that are not positive give the same line.
   */
  lemma SummaryLineShows(total: int, bitbar: bool)
    ensures total > 0 ==> var line := SummaryLine(total, bitbar);
      |line| > |ColorWhite| && line[..|ColorWhite|] == ColorWhite &&
      RubyText.ToI(line[|ColorWhite|..]) == total && line == SummaryLine(total, !bitbar)
    ensures total <= 0 ==> SummaryLine(total, bitbar) == SummaryLine(0, bitbar)
  {
    if total > 0 {
      var rest := " " + PrGlyph + AnsiClear + " | ansi=true size=16 " + FontHint;
      assert SummaryLine(total, bitbar) == ColorWhite + (RubyText.IntToString(total) + rest);
      RubyText.ToIOfIntToString(total, rest);
    }
  }

  /** What a run prints and sends, and whether it ended with an exception. */
  datatype Outcome = Outcome(lines: seq<string>, requests: seq<Services.Request>, aborted: bool)

  /** retrieve_pr_counts: the loop, then the summary line, then repo_details joined by "\n" in bitbar mode. */
  function RetrieveOutput(repos: seq<Config.RepoConfig>, network: Network, bitbar: bool): (o: Outcome)
    ensures var p := Retrieve(repos, network, bitbar);
      o.requests == p.requests && o.aborted == p.aborted && p.printed <= o.lines
  {
    Finish(Retrieve(repos, network, bitbar), bitbar)
  }

  /** What is printed after the loop, or nothing more when the loop was aborted. */
  function Finish(p: RepoLoop.Progress, bitbar: bool): Outcome
  {
    if p.aborted then Outcome(p.printed, p.requests, true)
    else Outcome(p.printed + [SummaryLine(p.total, bitbar)] + (if bitbar then [RubyText.Join(p.details, "\n")] else []),
                 p.requests, false)
  }

  /**
   * A completed run prints, after the error blocks, the summary line and,
   * in bitbar mode only, repo_details joined by "\n", which starts with "---".
   */
  lemma OutputShape(repos: seq<Config.RepoConfig>, network: Network, bitbar: bool)
    requires !Retrieve(repos, network, bitbar).aborted
    ensures var p := Retrieve(repos, network, bitbar); var o := RetrieveOutput(repos, network, bitbar);
      |o.lines| == |p.printed| + (if bitbar then 2 else 1) &&
      o.lines[..|p.printed|] == p.printed &&
      o.lines[|p.printed|] == SummaryLine(p.total, bitbar) &&
      (bitbar ==> o.lines[|o.lines| - 1] == RubyText.Join(p.details, "\n") && o.lines[|o.lines| - 1][..3] == "---")
  {
    var p := Retrieve(repos, network, bitbar);
    if bitbar {
      var menu := RubyText.Join(p.details, "\n");
      assert menu[..3] == "---" by { JoinStartsWithFirst(p.details, "\n"); }
    }
  }

  lemma JoinStartsWithFirst(xs: seq<string>, sep: string)
    requires xs != []
    ensures xs[0] <= RubyText.Join(xs, sep)
  {
  }

  datatype Weekday = Monday | Tuesday | Wednesday | Thursday | Friday | Saturday | Sunday

  predicate ItsAWeekend(today: Weekday) { today == Saturday || today == Sunday }

  /**
   * do_it!: parse the configuration (a missing repos list raises), stay
   * silent on a weekend unless asked to monitor weekends, else retrieve.
   */
  function Run(config: Config.YamlConfig, today: Weekday, bitbar: bool, network: Network): (o: Outcome)
    ensures config.repos.None? ==> o.aborted && o.lines == [] && o.requests == []
    ensures |o.requests| <= (if config.repos.Some? then |config.repos.value| else 0)
  {
    if config.repos.None? then Outcome([], [], true)
    else if !Config.MonitorFlag(config.shouldMonitorOnWeekends) && ItsAWeekend(today) then Outcome([], [], false)
    else RetrieveOutput(Config.ResolveAll(config.repos.value, config.username, config.appPassword), network, bitbar)
  }

  /**
   * Weekend gating: on a Saturday or Sunday, unless should_monitor_on_weekends
   * is true, a run sends nothing and prints nothing; on any other day, or
   * when it is true, the run retrieves the same way whatever the day.
   */
  lemma WeekendGating(config: Config.YamlConfig, today: Weekday, other: Weekday, bitbar: bool, network: Network)
    requires config.repos.Some?
    ensures ItsAWeekend(today) && config.shouldMonitorOnWeekends != Some(true) ==>
      Run(config, today, bitbar, network) == Outcome([], [], false)
    ensures !ItsAWeekend(today) || config.shouldMonitorOnWeekends == Some(true) ==>
      (!Run(config, today, bitbar, network).aborted ==> Run(config, today, bitbar, network).lines != []) &&
      (!ItsAWeekend(other) ==> Run(config, today, bitbar, network) == Run(config, other, bitbar, network))
  {
    var repos := Config.ResolveAll(config.repos.value, config.username, config.appPassword);
    var o := RetrieveOutput(repos, network, bitbar);
    if !ItsAWeekend(today) || config.shouldMonitorOnWeekends == Some(true) {
      assert Run(config, today, bitbar, network) == o;
      if !ItsAWeekend(other) {
        assert Run(config, other, bitbar, network) == o;
      }
      if !o.aborted {
        OutputShape(repos, network, bitbar);
      }
    }
  }

  /**
   * The block of retrieve_pr_counts run inside call_api's rescue, step by
   * step: read the count, add it, append the repo's line in bitbar mode,
   * then concatenate the pull-request lines.
   */
  method HandleReply(repo: Config.RepoConfig, k: Services.ServiceKind, reply: Responses.Reply, bitbar: bool)
    returns (a: Attempt)
    ensures a == AttemptRepo(repo, k, reply, bitbar)
  {
    var count := ReadCount(k, reply);
    if count.Err? {
      return Attempt(0, [], Some(count.error));
    }
    a := HandleCount(repo, k, reply, count.value, bitbar);
  }

  /** pr_count_for_bitbucket or pr_count_for_github on the reply, or the transport error. */
  method ReadCount(k: Services.ServiceKind, reply: Responses.Reply) returns (count: Result<int, RubyError>)
    ensures count == CountOf(k, reply)
  {
    if reply.Failed? {
      return Err(Transport(reply.message));
    }
    if k == Services.Bitbucket {
      count := Responses.BitbucketCount(reply.body);
    } else {
      count := Responses.PrCountForGithub(reply.link, reply.body);
    }
  }

  /** The rest of the block once the count n is read and added. */
  method HandleCount(repo: Config.RepoConfig, k: Services.ServiceKind, reply: Responses.Reply, n: int, bitbar: bool)
    returns (a: Attempt)
    requires CountOf(k, reply) == Ok(n)
    ensures a == AttemptRepo(repo, k, reply, bitbar)
  {
    var appended: seq<string> := [];
    if bitbar {
      appended := [HeaderLine(repo.name, n, Services.HumanUrl(k, repo.repo))];
    }
    if k == Services.Bitbucket {
      return Attempt(n, appended, Some(ConcatNil));
    }
    var details := Responses.PrDetailsForGithub(reply.body);
    if details.Err? {
      return Attempt(n, appended, Some(details.error));
    }
    a := Attempt(n, appended + details.value, None);
  }

  /** The token, then the endpoint, then the request call_api sends for the repo. */
  method BuildRepoRequest(repo: Config.RepoConfig, k: Services.ServiceKind) returns (request: Services.Request)
    ensures request == RequestFor(repo, k)
  {
    var token := Services.Token(k, repo.username, repo.appPassword);
    var endpoint := Services.Endpoint(k, repo.repo);
    request := Services.BuildRequest(endpoint, token);
  }

  /**
   * One turn of the loop of retrieve_pr_counts over a repo of a known
   * service: build the token, the endpoint and the request, send it, and
   * handle the reply, printing the error when the block raises.
   */
  method RetrieveOne(total: int, repoDetails: seq<string>, printed: seq<string>, requests: seq<Services.Request>,
                     repo: Config.RepoConfig, k: Services.ServiceKind, network: Network, bitbar: bool)
    returns (total': int, repoDetails': seq<string>, printed': seq<string>, requests': seq<Services.Request>)
    requires Services.Lookup(repo.service) == Some(k)
    ensures RepoLoop.Progress(total', repoDetails', printed', requests', false) ==
            RepoLoop.Advance(RepoLoop.Progress(total, repoDetails, printed, requests, false),
                             RepoTurn(repo, |requests|, network, bitbar))
  {
    var request := BuildRepoRequest(repo, k);
    var reply := network(|requests|, request);
    requests' := requests + [request];
    var a := HandleReply(repo, k, reply, bitbar);
    total' := total + a.added;
    repoDetails' := repoDetails + a.details;
    printed' := printed + ErrorOutput(a.error, bitbar);
    assert RepoTurn(repo, |requests|, network, bitbar) == RepoLoop.Visited(request, a.added, a.details, ErrorOutput(a.error, bitbar));
  }


  /** The plugin object: the settings parse_yaml_config stores and the runs made from them. */
  class GetPullRequests {
    var shouldMonitorOnWeekends: bool
    var globalUsername: Option<string>
    var globalAppPassword: Option<string>
    var repos: seq<Config.RepoConfig>

    constructor()
      ensures !shouldMonitorOnWeekends && globalUsername.None? && globalAppPassword.None? && repos == []
    {
      shouldMonitorOnWeekends := false;
      globalUsername := None;
      globalAppPassword := None;
      repos := [];
    }

    /**
     * parse_yaml_config: stores the weekend flag and the global credentials,
     * then builds one hash per repo entry. Returns false when the
     * configuration has no repos list, on which the source raises.
     */
    method ParseYamlConfig(config: Config.YamlConfig) returns (ok: bool)
      modifies this
      ensures ok <==> config.repos.Some?
      ensures shouldMonitorOnWeekends == Config.MonitorFlag(config.shouldMonitorOnWeekends)
      ensures globalUsername == config.username && globalAppPassword == config.appPassword
      ensures repos == if ok then Config.ResolveAll(config.repos.value, config.username, config.appPassword) else []
    {
      shouldMonitorOnWeekends := config.shouldMonitorOnWeekends.Some? && config.shouldMonitorOnWeekends.value;
      globalUsername := config.username;
      globalAppPassword := config.appPassword;
      repos := [];
      if config.repos.None? {
        return false;
      }
      var entries := config.repos.value;
      var i := 0;
      while i < |entries|
        invariant 0 <= i <= |entries|
        invariant shouldMonitorOnWeekends == Config.MonitorFlag(config.shouldMonitorOnWeekends)
        invariant globalUsername == config.username && globalAppPassword == config.appPassword
        invariant repos == Config.ResolveAll(entries[..i], globalUsername, globalAppPassword)
      {
        var entry := entries[i];
        var hash := Config.RepoConfig(entry.name, entry.service, entry.repo, None, None);
        if globalUsername.Some? { hash := hash.(username := globalUsername); }
        if entry.username.Some? { hash := hash.(username := entry.username); }
        if globalAppPassword.Some? { hash := hash.(appPassword := globalAppPassword); }
        if entry.appPassword.Some? { hash := hash.(appPassword := entry.appPassword); }
        assert entries[..i + 1][..i] == entries[..i];
        repos := repos + [hash];
        i := i + 1;
      }
      assert entries[..i] == entries;
      ok := true;
    }

    /**
     * retrieve_pr_counts: one request per repo, in order, each failure
     * printed and passed over, then the summary line and the menu.
     */
    method RetrievePrCounts(network: Network, bitbar: bool) returns (o: Outcome)
      ensures o == RetrieveOutput(repos, network, bitbar)
    {
      var total := 0;
      var repoDetails: seq<string> := ["---"];
      var printed: seq<string> := [];
      var requests: seq<Services.Request> := [];
      ghost var visit := Visit(network, bitbar);
      var i := 0;
      while i < |repos|
        invariant 0 <= i <= |repos|
        invariant RepoLoop.Loop(repos[..i], visit) == RepoLoop.Progress(total, repoDetails, printed, requests, false)
      {
        var repo := repos[i];
        RepoLoop.LoopLast(repos, i, visit);
        assert visit(repo, |requests|) == RepoTurn(repo, |requests|, network, bitbar);
        var kind := Services.Lookup(repo.service);
        if kind.None? {
          RepoLoop.LoopAbortedStays(repos, i + 1, visit);
          assert Outcome(printed, requests, true) == Finish(RepoLoop.Progress(total, repoDetails, printed, requests, true), bitbar);
          return Outcome(printed, requests, true);
        }
        total, repoDetails, printed, requests :=
          RetrieveOne(total, repoDetails, printed, requests, repo, kind.value, network, bitbar);
        i := i + 1;
      }
      assert repos[..i] == repos;
      o := Outcome(printed + [SummaryLine(total, bitbar)] + (if bitbar then [RubyText.Join(repoDetails, "\n")] else []),
                   requests, false);
      assert o == Finish(RepoLoop.Progress(total, repoDetails, printed, requests, false), bitbar);
    }

    /** do_it!: parse, stop quietly on a weekend unless weekends are monitored, else retrieve. */
    method DoIt(config: Config.YamlConfig, today: Weekday, bitbar: bool, network: Network) returns (o: Outcome)
      modifies this
      ensures o == Run(config, today, bitbar, network)
      ensures shouldMonitorOnWeekends == Config.MonitorFlag(config.shouldMonitorOnWeekends)
      ensures globalUsername == config.username && globalAppPassword == config.appPassword
      ensures repos == if config.repos.Some? then Config.ResolveAll(config.repos.value, config.username, config.appPassword) else []
    {
      var ok := ParseYamlConfig(config);
      if !ok {
        return Outcome([], [], true);
      }
      if !shouldMonitorOnWeekends && ItsAWeekend(today) {
        return Outcome([], [], false);
      }
      o := RetrievePrCounts(network, bitbar);
    }
  }
}