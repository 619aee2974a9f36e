/**
 * The two services the plugin talks to (SERVICES at
 * Dev/Git/get_pull_requests_bitbar.15m.rb:62-75), the token each one is
 * given, the URLs built for a repo, and the request call_api sends.
 */
module Services {
  import opened Wrappers
  import RubyText
  import Base64

  datatype ServiceKind = Bitbucket | GitHub

  /** SERVICES[service.to_sym]: only the exact names "bitbucket" and "github" are known. */
  function Lookup(service: Option<string>): (k: Option<ServiceKind>)
    ensures k == Some(Bitbucket) <==> service == Some("bitbucket")
    ensures k == Some(GitHub) <==> service == Some("github")
  {
    if service == Some("bitbucket") then Some(Bitbucket)
    else if service == Some("github") then Some(GitHub)
    else None
  }

  /** The name a service is looked up by. */
  function Name(k: ServiceKind): (s: string)
    ensures Lookup(Some(s)) == Some(k)
  {
    match k
    case Bitbucket => "bitbucket"
    case GitHub => "github"
  }

  function ApiPrefix(k: ServiceKind): string
  {
    match k
    case Bitbucket => "https://api.bitbucket.org/2.0/repositories"
    case GitHub => "https://api.github.com/repos"
  }

  function ApiSuffix(k: ServiceKind): string
  {
    match k
    case Bitbucket => "pullrequests"
    case GitHub => "pulls?state=open&type=pr"
  }

  function HumanPrefix(k: ServiceKind): string
  {
    match k
    case Bitbucket => "https://bitbucket.org"
    case GitHub => "https://github.com"
  }

  function HumanSuffix(k: ServiceKind): string
  {
    match k
    case Bitbucket => "pull-requests"
    case GitHub => "pulls"
  }

  /** String interpolation of a value that may be nil: nil interpolates as "". */
  function Interpolate(o: Option<string>): (s: string)
    ensures o.Some? ==> s == o.value
    ensures o.None? ==> s == ""
  {
    if o.Some? then o.value else ""
  }

  /** prefix/repo/suffix, as both URLs of a repo are built. */
  function RepoUrl(prefix: string, repo: Option<string>, suffix: string): (u: string)
    ensures |u| == |prefix| + |Interpolate(repo)| + |suffix| + 2
    ensures u[..|prefix|] == prefix && u[|prefix|] == '/'
    ensures u[|prefix| + 1..|u| - |suffix| - 1] == Interpolate(repo)
    ensures u[|u| - |suffix| - 1] == '/' && u[|u| - |suffix|..] == suffix
  {
    prefix + "/" + Interpolate(repo) + "/" + suffix
  }

  /** The API endpoint the pull requests of a repo are fetched from. */
  function Endpoint(k: ServiceKind, repo: Option<string>): string
  {
    RepoUrl(ApiPrefix(k), repo, ApiSuffix(k))
  }

  /** The page of a repo's pull requests a person opens from the menu. */
  function HumanUrl(k: ServiceKind, repo: Option<string>): string
  {
    RepoUrl(HumanPrefix(k), repo, HumanSuffix(k))
  }

  /** Two URLs built from the same prefix and suffix are equal exactly when the repo paths interpolate alike. */
  lemma RepoUrlInjective(prefix: string, r1: Option<string>, r2: Option<string>, suffix: string)
    ensures RepoUrl(prefix, r1, suffix) == RepoUrl(prefix, r2, suffix) <==> Interpolate(r1) == Interpolate(r2)
  {
    var u1, u2 := RepoUrl(prefix, r1, suffix), RepoUrl(prefix, r2, suffix);
    if u1 == u2 {
      assert u1[|prefix| + 1..|u1| - |suffix| - 1] == u2[|prefix| + 1..|u2| - |suffix| - 1];
    }
  }

  /** Two repos of the same service get the same endpoint, or the same page, only when their paths interpolate alike. */
  lemma UrlsDetermineRepo(k: ServiceKind, r1: Option<string>, r2: Option<string>)
    ensures Endpoint(k, r1) == Endpoint(k, r2) <==> Interpolate(r1) == Interpolate(r2)
    ensures HumanUrl(k, r1) == HumanUrl(k, r2) <==> Interpolate(r1) == Interpolate(r2)
  {
    RepoUrlInjective(ApiPrefix(k), r1, r2, ApiSuffix(k));
    RepoUrlInjective(HumanPrefix(k), r1, r2, HumanSuffix(k));
  }

  /** Repos of different services never share an endpoint. */
  lemma EndpointsOfServicesDiffer(r1: Option<string>, r2: Option<string>)
    ensures Endpoint(Bitbucket, r1) != Endpoint(GitHub, r2)
  {
    var e1, e2 := Endpoint(Bitbucket, r1), Endpoint(GitHub, r2);
    var p1, p2 := ApiPrefix(Bitbucket), ApiPrefix(GitHub);
    assert e1[..|p1|] == p1 && e2[..|p2|] == p2;
    assert e1[12] == e1[..|p1|][12] == p1[12] == 'b';
    assert e2[12] == e2[..|p2|][12] == p2[12] == 'g';
  }

  /** The text Bitbucket's token is made from: "username:app_password", with a nil username interpolated as "". */
  function Credentials(username: Option<string>, appPassword: string): (s: string)
    ensures username.None? ==> s == ":" + appPassword
  {
    Interpolate(username) + ":" + appPassword
  }

  /** The token of a repo: none without an app_password; Bitbucket's is Base64.encode64 of the credentials, chomped; GitHub's is the app_password itself. */
  function Token(k: ServiceKind, username: Option<string>, appPassword: Option<string>): (t: Option<string>)
    ensures t.Some? <==> appPassword.Some?
    ensures k == GitHub ==> t == appPassword
  {
    if appPassword.None? then None
    else match k
      case Bitbucket => Some(RubyText.Chomp(Base64.Encode64(RubyText.Utf8(Credentials(username, appPassword.value)))))
      case GitHub => Some(appPassword.value)
  }

  /**
   * A Bitbucket token, once any line breaks are taken out, decodes to the
   * UTF-8 bytes of "username:app_password". When those are at most 45 bytes
   * the token is one Base64 line; otherwise it keeps a line break inside.
   */
  lemma BitbucketTokenDecodes(username: Option<string>, appPassword: string)
    ensures var t := Token(Bitbucket, username, Some(appPassword)).value;
      var b := RubyText.Utf8(Credentials(username, appPassword));
      Base64.Decode(Base64.Unwrap(t)) == Some(b) &&
      (|b| <= Base64.LineBytes ==> '\n' !in t) &&
      (|b| > Base64.LineBytes ==> '\n' in t)
  {
    Base64.ChompedEncode64(RubyText.Utf8(Credentials(username, appPassword)));
  }

  /** The request call_api sends: verb, URI and the two header fields it adds. */
  datatype Request = Request(verb: string, uri: string, authorization: Option<string>, contentType: string)

  /** call_api 'GET', endpoint, token: "token <token>" as Authorization when there is a token, and always a JSON Content-Type. */
  function BuildRequest(endpoint: string, token: Option<string>): (r: Request)
    ensures r.verb == "GET" && r.uri == endpoint && r.contentType == "application/json"
    ensures r.authorization.Some? <==> token.Some?
    ensures token.Some? ==> var a := r.authorization.value;
      |a| >= 6 && a[..6] == "token " && a[6..] == token.value
  {
    Request("GET", endpoint, if token.Some? then Some("token " + token.value) else None, "application/json")
  }
}
