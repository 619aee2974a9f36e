/**
 * Reading one HTTP reply: pr_count_for_github, pr_count_for_bitbucket and
 * pr_details_for_github (Dev/Git/get_pull_requests_bitbar.15m.rb:199-228).
 * The JSON body is given already parsed, as far as these methods look into it.
 */
module Responses {
  import opened Wrappers
  import opened RubyErrors
  import opened Palette
  import RubyText
  import LinkHeader

  /** The "size" member of a JSON object, as JSON.parse returns it; Missing covers both absent and null. */
  datatype SizeField = Missing | Number(n: int) | Text(s: string) | Flag(b: bool) | ArrayValue | ObjectValue

  /**
   * One element of GitHub's pull-request array, as far as the plugin reads it.
   * headRef is the "ref" of the "head" object and userLogin the "login" of the
   * "user" object; None stands for an absent object, which makes ['ref'] or
   * ['login'] raise.
   */
  datatype PrRecord = PrRecord(title: string, number: int, htmlUrl: string,
                               headRef: Option<string>, userLogin: Option<string>)

  /** The body after JSON.parse. */
  datatype Body =
    | Unparsable(message: string)              // JSON.parse raises JSON::ParserError
    | PrList(prs: seq<PrRecord>)               // a JSON array
    | Object(keyCount: nat, size: SizeField)   // a JSON object: how many keys it has, and its "size"

  /** What the request in call_api ends with: an exception, or a reply with its Link header and body. */
  datatype Reply = Failed(message: string) | Received(link: Option<string>, body: Body)

  /** pr_count_for_github: the Link header's last page, else the number of elements of the body (Hash#count for an object). */
  function GithubCount(link: Option<string>, body: Body): (r: Result<int, RubyError>)
    ensures r.Err? ==> (link.Some? && r.error == NoLinkMatch) || (link.None? && body.Unparsable? && r.error == JsonParse(body.message))
    ensures link.None? && !body.Unparsable? ==> r.Ok? && r.value >= 0
  {
    match link
    case Some(header) => LinkHeader.LinkCount(header)
    case None =>
      match body
      case Unparsable(m) => Err(JsonParse(m))
      case PrList(prs) => Ok(|prs|)
      case Object(keys, _) => Ok(keys)
  }

  /** to_i on the value of "size". */
  function SizeToI(f: SizeField): Result<int, RubyError>
  {
    match f
    case Missing => Ok(0)
    case Number(n) => Ok(n)
    case Text(t) => Ok(RubyText.ToI(t))
    case Flag(b) => Err(NoToI(if b then "true" else "false"))
    case ArrayValue => Err(NoToI("an instance of Array"))
    case ObjectValue => Err(NoToI("an instance of Hash"))
  }

  /** pr_count_for_bitbucket: result["size"].to_i. */
  function BitbucketCount(body: Body): (r: Result<int, RubyError>)
    ensures r.Err? ==> (body.Unparsable? && r.error == JsonParse(body.message)) ||
                       (body.PrList? && r.error == ArrayIndexedByString) ||
                       (body.Object? && r.error.NoToI?)
  {
    match body
    case Unparsable(m) => Err(JsonParse(m))
    case PrList(_) => Err(ArrayIndexedByString)
    case Object(_, size) => SizeToI(size)
  }

  /**
   * pr_count_for_bitbucket succeeds exactly on a JSON object whose "size" is
   * absent, a number or a string; a size written by Integer#to_s is read
   * back as that number, and an absent size counts 0.
   */
  lemma BitbucketCountSpec(body: Body, n: int)
    ensures BitbucketCount(body).Ok? <==>
      body.Object? && (body.size.Missing? || body.size.Number? || body.size.Text?)
    ensures body.Object? && body.size.Missing? ==> BitbucketCount(body) == Ok(0)
    ensures body.Object? && body.size == Number(n) ==> BitbucketCount(body) == Ok(n)
    ensures body.Object? && body.size == Text(RubyText.IntToString(n)) ==> BitbucketCount(body) == Ok(n)
  {
    RubyText.ToIOfIntToString(n, []);
    assert RubyText.IntToString(n) + [] == RubyText.IntToString(n);
  }

  /** The first of the three lines for a pull request: title, number and link. */
  function TitleLine(pr: PrRecord): (line: string)
    ensures "--" <= line
    ensures |line| >= |pr.htmlUrl| && line[|line| - |pr.htmlUrl|..] == pr.htmlUrl
  {
    "--" + ColorCyan + pr.title + AnsiClear + " #" + RubyText.IntToString(pr.number) + " | href=" + pr.htmlUrl
  }

  /** The second line: branch and author, linking to the changed files. */
  function BranchLine(ref: string, login: string, htmlUrl: string): (line: string)
    ensures "--" <= line
    ensures |line| >= |htmlUrl + "/files"| && line[|line| - |htmlUrl + "/files"|..] == htmlUrl + "/files"
  {
    "--" + ColorBlue + ref + AnsiClear + " " + ColorYellow + "@" + login + AnsiClear +
    " | ansi=true size=12 href=" + htmlUrl + "/files"
  }

  const Separator: string := "-----"

  /** The three lines for one pull request; raises when its head or user object is missing. */
  function PrLines(pr: PrRecord): (r: Result<seq<string>, RubyError>)
    ensures r.Ok? <==> Complete(pr)
    ensures r.Ok? ==> |r.value| == 3 && r.value[2] == Separator
    ensures r.Err? ==> r.error == NilIndexed
  {
    if pr.headRef.Some? && pr.userLogin.Some? then
      Ok([TitleLine(pr), BranchLine(pr.headRef.value, pr.userLogin.value, pr.htmlUrl), Separator])
    else Err(NilIndexed)
  }

  /** The lines for every pull request of the array, in order; the first record that raises ends it. */
  function DetailLines(prs: seq<PrRecord>): (r: Result<seq<string>, RubyError>)
    ensures r.Ok? ==> |r.value| == 3 * |prs|
    ensures r.Err? ==> r.error == NilIndexed
    decreases |prs|
  {
    if prs == [] then Ok([])
    else
      match DetailLines(prs[..|prs| - 1])
      case Err(e) => Err(e)
      case Ok(lines) =>
        match PrLines(prs[|prs| - 1])
        case Err(e) => Err(e)
        case Ok(three) => Ok(lines + three)
  }

  /**
   * pr_details_for_github: each over the parsed body. An object yields its
   * [key, value] pairs, and pair['title'] raises, so only an empty object gets through.
   */
  function GithubDetails(body: Body): (r: Result<seq<string>, RubyError>)
    ensures r.Ok? ==> |r.value| % 3 == 0
    ensures body.Object? ==> (r.Ok? <==> body.keyCount == 0)
  {
    match body
    case Unparsable(m) => Err(JsonParse(m))
    case PrList(prs) => DetailLines(prs)
    case Object(keys, _) => if keys == 0 then Ok([]) else Err(ArrayIndexedByString)
  }

  predicate Complete(pr: PrRecord) { pr.headRef.Some? && pr.userLogin.Some? }

  /** pr_details_for_github raises exactly when some record lacks its head or user object, and then with NilIndexed. */
  lemma {:induction false} DetailLinesOk(prs: seq<PrRecord>)
    ensures DetailLines(prs).Ok? <==> forall i :: 0 <= i < |prs| ==> Complete(prs[i])
    ensures DetailLines(prs).Err? ==> DetailLines(prs).error == NilIndexed
    decreases |prs|
  {
    if prs != [] {
      var n := |prs| - 1;
      var init := prs[..n];
      DetailLinesOk(init);
      assert DetailLines(prs).Ok? <==> DetailLines(init).Ok? && Complete(prs[n]);
      assert forall i :: 0 <= i < n ==> init[i] == prs[i];
    }
  }

  /** The lines of one more pull request go after those of the ones before it. */
  lemma DetailLinesSnoc(prs: seq<PrRecord>, pr: PrRecord)
    requires DetailLines(prs).Ok? && Complete(pr)
    ensures DetailLines(prs + [pr]) == Ok(DetailLines(prs).value + PrLines(pr).value)
  {
    assert (prs + [pr])[..|prs|] == prs;
  }

  /** The three lines of one pull request sit at positions 3i, 3i+1 and 3i+2. */
  ghost predicate BlockAt(lines: seq<string>, i: nat, pr: PrRecord)
    requires Complete(pr) && 3 * i + 3 <= |lines|
  {
    lines[3 * i] == TitleLine(pr) &&
    lines[3 * i + 1] == BranchLine(pr.headRef.value, pr.userLogin.value, pr.htmlUrl) &&
    lines[3 * i + 2] == Separator
  }

  lemma BlockAtAppend(lines: seq<string>, extra: seq<string>, i: nat, pr: PrRecord)
    requires Complete(pr) && 3 * i + 3 <= |lines| && BlockAt(lines, i, pr)
    ensures BlockAt(lines + extra, i, pr)
  {
    assert (lines + extra)[3 * i] == lines[3 * i];
    assert (lines + extra)[3 * i + 1] == lines[3 * i + 1];
    assert (lines + extra)[3 * i + 2] == lines[3 * i + 2];
  }

  lemma BlockAtEnd(lines: seq<string>, i: nat, pr: PrRecord)
    requires Complete(pr) && |lines| == 3 * i
    ensures BlockAt(lines + PrLines(pr).value, i, pr)
  {
  }

  /** lines are three lines per pull request, in the order of prs: title line, branch line, "-----". */
  ghost predicate Shaped(prs: seq<PrRecord>, lines: seq<string>)
    requires forall i :: 0 <= i < |prs| ==> Complete(prs[i])
  {
    |lines| == 3 * |prs| && forall i :: 0 <= i < |prs| ==> BlockAt(lines, i, prs[i])
  }

  lemma ShapedSnoc(prs: seq<PrRecord>, lines: seq<string>, pr: PrRecord)
    requires forall i :: 0 <= i < |prs| ==> Complete(prs[i])
    requires Complete(pr) && Shaped(prs, lines)
    ensures forall i :: 0 <= i < |prs + [pr]| ==> Complete((prs + [pr])[i])
    ensures Shaped(prs + [pr], lines + PrLines(pr).value)
  {
    var all := prs + [pr];
    var extra := PrLines(pr).value;
    forall i | 0 <= i < |all|
      ensures Complete(all[i]) && BlockAt(lines + extra, i, all[i])
    {
      if i < |prs| {
        assert all[i] == prs[i];
        BlockAtAppend(lines, extra, i, prs[i]);
      } else {
        BlockAtEnd(lines, i, pr);
      }
    }
  }

  /**
   * pr_details_for_github yields exactly three lines per pull request, in
   * the order of the array: title line, branch line, "-----".
   */
  lemma {:induction false} DetailLinesShape(prs: seq<PrRecord>)
    requires forall i :: 0 <= i < |prs| ==> Complete(prs[i])
    ensures DetailLines(prs).Ok?
    ensures Shaped(prs, DetailLines(prs).value)
    decreases |prs|
  {
    DetailLinesOk(prs);
    if prs != [] {
      var n := |prs| - 1;
      var init := prs[..n];
      assert prs == init + [prs[n]];
      DetailLinesShape(init);
      DetailLinesSnoc(init, prs[n]);
      ShapedSnoc(init, DetailLines(init).value, prs[n]);
    }
  }

  /** Without a Link header, a GitHub pull-request array counts as many pull requests as it gets detail blocks. */
  lemma CountMatchesDetails(prs: seq<PrRecord>)
    ensures GithubCount(None, PrList(prs)) == Ok(|prs|)
    ensures (forall i :: 0 <= i < |prs| ==> Complete(prs[i])) ==>
      GithubDetails(PrList(prs)).Ok? && 3 * GithubCount(None, PrList(prs)).value == |GithubDetails(PrList(prs)).value|
  {
    if forall i :: 0 <= i < |prs| ==> Complete(prs[i]) {
      DetailLinesShape(prs);
    }
  }

  /** pr_count_for_github as the source writes it: the Link header when there is one, else the parsed body. */
  method PrCountForGithub(link: Option<string>, body: Body) returns (r: Result<int, RubyError>)
    ensures r == GithubCount(link, body)
  {
    if link.Some? {
      r := LinkHeaderCount(link.value);
    } else {
      match body
      case Unparsable(m) => r := Err(JsonParse(m));
      case PrList(prs) => r := Ok(|prs|);
      case Object(keys, _) => r := Ok(keys);
    }
  }

  /**
   * The Link-header part of pr_count_for_github: the `links` hash is filled
   * element by element, and the first element the pattern misses raises.
   */
  method LinkHeaderCount(header: string) returns (r: Result<int, RubyError>)
    ensures r == LinkHeader.LinkCount(header)
  {
    var elements := RubyText.Split(header);
    var links: map<string, string> := map[];
    var i := 0;
    while i < |elements|
      invariant 0 <= i <= |elements|
      invariant LinkHeader.LinkTable(elements[..i]) == Ok(links)
    {
      assert elements[..i + 1][..i] == elements[..i];
      var captures := LinkHeader.MatchLink(elements[i]);
      if captures.None? {
        LinkHeader.LinkTableFails(elements);
        return Err(NoLinkMatch);
      }
      var (page, rel) := captures.value;
      links := links[rel := page];
      i := i + 1;
    }
    assert elements[..i] == elements;
    r := Ok(LinkHeader.LastPage(links));
  }

  /** pr_details_for_github as the source writes it: three lines appended per pull request. */
  method PrDetailsForGithub(body: Body) returns (r: Result<seq<string>, RubyError>)
    ensures r == GithubDetails(body)
  {
    match body {
      case Unparsable(m) =>
        r := Err(JsonParse(m));
      case Object(keys, _) =>
        r := if keys == 0 then Ok([]) else Err(ArrayIndexedByString);
      case PrList(prs) =>
        var result: seq<string> := [];
        var i := 0;
        while i < |prs|
          invariant 0 <= i <= |prs|
          invariant DetailLines(prs[..i]) == Ok(result)
        {
          assert prs[..i + 1][..i] == prs[..i];
          var pr := prs[i];
          if pr.headRef.None? || pr.userLogin.None? {
            DetailLinesOk(prs);
            return Err(NilIndexed);
          }
          ghost var before := result;
          result := result + [TitleLine(pr)];
          result := result + [BranchLine(pr.headRef.value, pr.userLogin.value, pr.htmlUrl)];
          result := result + [Separator];
          assert result == before + PrLines(pr).value;
          assert prs[..i + 1] == prs[..i] + [pr];
          DetailLinesSnoc(prs[..i], pr);
          i := i + 1;
        }
        assert prs[..i] == prs;
        r := Ok(result);
    }
  }
}
