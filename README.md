# Pull-request counter for GitHub and Bitbucket

This project models `Dev/Git/get_pull_requests_bitbar.15m.rb`, a BitBar plugin in
Ruby. It reads a list of repositories from `configs/repos.yaml`. For each one it
sends a single GET request to the GitHub or Bitbucket REST API and reads an
open-pull-request count from the reply. A repo whose handling raises prints an
error block as soon as it fails. After the loop the plugin prints the summary
line: the total when it is positive, else a check mark. In BitBar mode it also
prints a menu with one line per repo whose count was read and, for GitHub repos
whose details were read, three lines per pull request.

The model follows the plugin's structure:

- `Config` is the loaded YAML file and `parse_yaml_config`'s credential rule. A
  repo's own `username`/`app_password` win over the global ones.
- `Services` holds the `SERVICES` table, the token built for each service, the two
  URLs built for a repo, and the request `call_api` sends.
- `LinkHeader` is the `Link` header count of `pr_count_for_github`: split on `,`,
  match each element with `/&page=(.*)>; rel="(.*)"/` (leftmost, greedy, `.` not
  matching a newline), then `to_i` of the page of the last `rel="last"`.
- `Base64` is `Base64.encode64` (60-character lines, each ending in a newline),
  followed by `chomp`.
- `RubyText` holds the Ruby string operations the plugin relies on: `to_i`,
  `Integer#to_s`, `split(',')`, `join`, `chomp` and UTF-8 bytes.
- `Responses` covers `pr_count_for_github`, `pr_count_for_bitbucket` and
  `pr_details_for_github`. `pr_count_for_bitbucket` is the function
  `BitbucketCount`. The loops of the other two are the methods `PrCountForGithub`
  and `PrDetailsForGithub`, each proved equal to a specification function.
- `RepoLoop` is the loop of `retrieve_pr_counts` with what happens at one repo
  left as a parameter. Order, one request per repo, the running total, the lines
  appended to `repo_details` and the printed error output are proved there once.
- `PullRequests` covers `call_api`, `retrieve_pr_counts` and `do_it!`, and the
  class `GetPullRequests` with its fields and loops. It instantiates `RepoLoop`
  with the plugin's own turn for a repo.

Each HTTP exchange is a parameter, `network: (nat, Request) -> Reply`. It is given
the number of requests sent before and the request itself, and it answers with an
exception message or a `Link` header and a parsed JSON body. The day of the week
and BitBar mode are also parameters. Printing is modelled as the list of strings
passed to `puts`.

Behaviours of the code as written that the model keeps and proves:

- A Bitbucket repo whose count is read adds that count to the total, and in BitBar
  mode its line stays in the menu. The block then raises on
  `repo_details.concat nil`, so the repo also prints `? ` and, in BitBar mode, the
  error.
- A GitHub reply without a `Link` header whose body is a JSON object with n > 0
  keys adds n, as `Hash#count` gives. The block then raises when
  `pr_details_for_github` indexes a key–value pair with `'title'`.
- A negative `size` or page number (`to_i` of `"-3"`) is added as it is. The repo's
  line then shows neither a count nor the green colour.

Other facts of the code that the model follows:

- GitHub is queried through the REST `pulls` endpoint. The count is the last page
  of the `Link` header, or else the length of the parsed body.
- Both services get an `Authorization: token <t>` header. For Bitbucket, `<t>` is
  Base64 of `username:app_password`.
- A service name that is neither `github` nor `bitbucket` ends the whole run. The
  lookup at line 175 is outside `call_api`'s rescue.
- The summary line printed when the total is not positive holds a check-mark glyph
  (U+F62B) and the pull-request glyph (U+E726). `? ` at line 157 is followed by
  U+E726, and so is the total at line 192.

## Model

| member | source | states |
|---|---|---|
| Config.MonitorFlag | Dev/Git/get_pull_requests_bitbar.15m.rb:128 | weekends are monitored exactly when the file says `true`; absent, null or false means not |
| Config.Override | Dev/Git/get_pull_requests_bitbar.15m.rb:135-138 | a value is present iff the repo or the file sets it; the repo's own value wins, else the global one |
| Config.Resolve | Dev/Git/get_pull_requests_bitbar.15m.rb:134-138 | name, service and repo are copied; username and app_password follow the override rule |
| Config.ResolveAll | Dev/Git/get_pull_requests_bitbar.15m.rb:132-140 | one resolved hash per entry, in the order of the file |
| Config.OwnCredentialsIgnoreGlobals | Dev/Git/get_pull_requests_bitbar.15m.rb:135-138 | a repo with its own username and app_password resolves the same whatever the global credentials |
| PullRequests.GetPullRequests.ParseYamlConfig | Dev/Git/get_pull_requests_bitbar.15m.rb:122-141 | the loop of assignments stores the weekend flag and globals and builds exactly ResolveAll of the entries; it fails (as the source raises) iff there is no repos list, leaving @repos empty |
| Services.Lookup | Dev/Git/get_pull_requests_bitbar.15m.rb:175 | only the exact names "bitbucket" and "github" select a service, each its own |
| Services.Name | Dev/Git/get_pull_requests_bitbar.15m.rb:62-75 | each service's key looks that service up again |
| Services.RepoUrl | Dev/Git/get_pull_requests_bitbar.15m.rb:176-177 | the URL is prefix, "/", the interpolated repo, "/", suffix, and each part can be cut back out |
| Services.RepoUrlInjective | Dev/Git/get_pull_requests_bitbar.15m.rb:176-177 | with the same prefix and suffix, two URLs are equal iff the repo paths interpolate alike |
| Services.UrlsDetermineRepo | Dev/Git/get_pull_requests_bitbar.15m.rb:176-177 | within one service, the endpoint and the human page each determine the repo path and are determined by it |
| Services.EndpointsOfServicesDiffer | Dev/Git/get_pull_requests_bitbar.15m.rb:62-75 | a Bitbucket endpoint never equals a GitHub endpoint |
| Services.Interpolate | Dev/Git/get_pull_requests_bitbar.15m.rb:171 | a nil value interpolates as the empty string, a string as itself |
| Services.Credentials | Dev/Git/get_pull_requests_bitbar.15m.rb:171 | a nil username gives ":" followed by the app_password |
| Services.Token | Dev/Git/get_pull_requests_bitbar.15m.rb:170-173 | a token exists iff app_password is set; GitHub's token is the app_password verbatim |
| Services.BitbucketTokenDecodes | Dev/Git/get_pull_requests_bitbar.15m.rb:171 | Bitbucket's token, with its line breaks removed, Base64-decodes to the UTF-8 bytes of "username:app_password"; it has no line break iff those are at most 45 bytes |
| Services.BuildRequest | Dev/Git/get_pull_requests_bitbar.15m.rb:151-153 | a GET of the endpoint with Content-Type application/json, and an Authorization "token <t>" iff there is a token |
| Base64.DecodeEncode | Dev/Git/get_pull_requests_bitbar.15m.rb:171 | the unbroken Base64 encoding decodes back to its input |
| Base64.ChompedEncode64 | Dev/Git/get_pull_requests_bitbar.15m.rb:171 | encode64 then chomp decodes back to the input once line breaks are removed; up to 45 bytes it is a single unbroken line, beyond that a line break stays inside |
| Base64.Encode | Dev/Git/get_pull_requests_bitbar.15m.rb:171 | empty input encodes to nothing, other input to at least one group, never with a line break |
| Base64.Encode64 | Dev/Git/get_pull_requests_bitbar.15m.rb:171 | empty input gives nothing; other input gives at least five characters, the last of them a line break |
| RubyText.ToIOfIntToString | Dev/Git/get_pull_requests_bitbar.15m.rb:207 | the model's `to_i` (underscores aside) reads back any integer written by `to_s` when what follows does not start with a digit, nor with `d`/`D` after a lone 0 |
| RubyText.ToI | Dev/Git/get_pull_requests_bitbar.15m.rb:207 | `to_i` (white space, sign, optional `0d` prefix, digits) is negative only if the text holds a minus sign, and is 0 when the text holds no digit |
| RubyText.NatToStringRoundTrip | Dev/Git/get_pull_requests_bitbar.15m.rb:184 | the decimal digits of a natural number read back as that number |
| RubyText.IntToString | Dev/Git/get_pull_requests_bitbar.15m.rb:184 | `Integer#to_s` writes a non-negative number as digits only, a negative one as "-" followed by digits only |
| RubyText.SplitJoin | Dev/Git/get_pull_requests_bitbar.15m.rb:202 | `split(',')` of comma-joined, comma-free fields whose last is non-empty gives back those fields |
| RubyText.Split | Dev/Git/get_pull_requests_bitbar.15m.rb:202 | `split(',')` yields fields holding no comma, the last of them never empty |
| RubyText.DropTrailingEmpty | Dev/Git/get_pull_requests_bitbar.15m.rb:202 | `split` keeps a prefix of the fields whose last is non-empty, and drops only empty ones |
| RubyText.Chomp | Dev/Git/get_pull_requests_bitbar.15m.rb:171 | chomp removes at most two characters, from the end only |
| LinkHeader.MatchLinkCorrect | Dev/Git/get_pull_requests_bitbar.15m.rb:204 | the match fails iff no position matches the pattern; otherwise the captures are those of the leftmost, greedy match |
| LinkHeader.MatchLink | Dev/Git/get_pull_requests_bitbar.15m.rb:204 | `match(...).captures` is nil exactly when the leftmost-match search finds nothing, and the captured page and rel hold no line break |
| LinkHeader.FindMatch | Dev/Git/get_pull_requests_bitbar.15m.rb:204 | a match found at or after the starting position is a match of the pattern, from there to a closing quote on the same line |
| LinkHeader.MatchLinkFormat | Dev/Git/get_pull_requests_bitbar.15m.rb:204 | a well-formed `<…&page=P>; rel="R"` element captures exactly P and R |
| LinkHeader.LinkTableFails | Dev/Git/get_pull_requests_bitbar.15m.rb:203-206 | building the links hash fails iff some element does not match, always with the nil-captures error |
| LinkHeader.LinkTable | Dev/Git/get_pull_requests_bitbar.15m.rb:203-206 | building the links hash fails only with the nil-captures error; when it succeeds, the last element's rel maps to that element's page |
| LinkHeader.TableLastWins | Dev/Git/get_pull_requests_bitbar.15m.rb:203-206 | a rel is a key iff some element has it, and its page is the page of the last element with that rel |
| LinkHeader.LinkCountFails | Dev/Git/get_pull_requests_bitbar.15m.rb:201-206 | the Link count fails iff an element does not match, and then with the nil-captures error |
| LinkHeader.LinkCountNoLast | Dev/Git/get_pull_requests_bitbar.15m.rb:203-207 | when every element matches and none has rel "last", the count is 0 |
| LinkHeader.LinkCountLast | Dev/Git/get_pull_requests_bitbar.15m.rb:203-207 | when every element matches, the count is `to_i` of the page of the last element whose rel is "last" |
| LinkHeader.LinkCount | Dev/Git/get_pull_requests_bitbar.15m.rb:201-207 | the Link count fails only with the nil-captures error, and a header with no element counts 0 |
| LinkHeader.FormatHeaderCount | Dev/Git/get_pull_requests_bitbar.15m.rb:201-207 | a header written from well-formed elements counts `to_i` of the last "last" page, or 0 when there is none |
| Responses.PrCountForGithub | Dev/Git/get_pull_requests_bitbar.15m.rb:199-212 | the Link-header count, or else the body's element count, computes GithubCount |
| Responses.GithubCount | Dev/Git/get_pull_requests_bitbar.15m.rb:199-212 | without a Link header, an array or an object always gives a non-negative count and only an unparsable body fails; with one, only a non-matching element fails |
| Responses.LinkHeaderCount | Dev/Git/get_pull_requests_bitbar.15m.rb:201-207 | the loop filling the links hash element by element computes LinkCount, raising at the first element the pattern misses |
| Responses.BitbucketCountSpec | Dev/Git/get_pull_requests_bitbar.15m.rb:214-217 | the count succeeds iff the body is an object whose size is absent, a number or a string; absent is 0, a number is itself, a `to_s`-written number reads back |
| Responses.BitbucketCount | Dev/Git/get_pull_requests_bitbar.15m.rb:214-217 | pr_count_for_bitbucket fails only on an unparsable body, an array indexed with "size", or a size that has no `to_i` |
| Responses.PrDetailsForGithub | Dev/Git/get_pull_requests_bitbar.15m.rb:219-228 | the appending loop computes GithubDetails |
| Responses.GithubDetails | Dev/Git/get_pull_requests_bitbar.15m.rb:219-228 | the details come three lines per pull request; an object body gets through iff it has no keys |
| Responses.DetailLines | Dev/Git/get_pull_requests_bitbar.15m.rb:222-227 | the lines of a pull-request array are three per pull request, and the only failure is the nil-index error |
| Responses.PrLines | Dev/Git/get_pull_requests_bitbar.15m.rb:223-225 | one pull request gives lines iff it has its head and user objects, and then three lines ending with "-----"; otherwise the nil-index error |
| Responses.TitleLine | Dev/Git/get_pull_requests_bitbar.15m.rb:223 | the title line is a submenu line ("--") linking to the pull request's page |
| Responses.BranchLine | Dev/Git/get_pull_requests_bitbar.15m.rb:224 | the branch line is a submenu line ("--") linking to the pull request's files page |
| Responses.DetailLinesOk | Dev/Git/get_pull_requests_bitbar.15m.rb:222-225 | the details fail iff some pull request lacks its head or user object, and then with the nil-index error |
| Responses.DetailLinesShape | Dev/Git/get_pull_requests_bitbar.15m.rb:222-226 | exactly three lines per pull request in array order: title line, branch line, "-----" |
| Responses.CountMatchesDetails | Dev/Git/get_pull_requests_bitbar.15m.rb:208-211 | without a Link header, a pull-request array counts its length; when every pull request is complete its details are three times as many lines |
| PullRequests.HeaderLineShows | Dev/Git/get_pull_requests_bitbar.15m.rb:184-185 | a positive n gives the line name, " - ", n, "| ", then " href=" and the page, with no colour, and n reads back from it; n == 0 gives name, " | ", color=#28a745 and the link; a negative n gives neither count nor colour |
| PullRequests.HeaderLine | Dev/Git/get_pull_requests_bitbar.15m.rb:184-185 | the repo line starts with the repo name and a space and ends with " href=" and the repo's page |
| PullRequests.AttemptRepo | Dev/Git/get_pull_requests_bitbar.15m.rb:179-188 | the count added is the count read, 0 when none was read; a failed count appends nothing and raises its own error; only a GitHub repo can get through the block without raising |
| PullRequests.BitbucketCountSurvives | Dev/Git/get_pull_requests_bitbar.15m.rb:180-187 | a Bitbucket count that is read is added and its line appended (BitBar mode) although the block then raises on `concat nil` |
| PullRequests.GithubAttempt | Dev/Git/get_pull_requests_bitbar.15m.rb:181-187 | a GitHub repo succeeds iff the request, the count and the details all succeed, and then appends its line and its pull-request lines |
| PullRequests.GithubObjectCountsKeys | Dev/Git/get_pull_requests_bitbar.15m.rb:181-187 | a GitHub reply without a Link header whose body is an object with n > 0 keys adds n, then raises the String-index error |
| PullRequests.EveryBitbucketRepoFails | Dev/Git/get_pull_requests_bitbar.15m.rb:186-187 | every Bitbucket repo raises, so it always prints an error |
| PullRequests.ErrorLines | Dev/Git/get_pull_requests_bitbar.15m.rb:156-161 | an error prints "? " and the glyph, followed in BitBar mode only by "---" and "Got Error: " with the error's message |
| RubyErrors.Message | Dev/Git/get_pull_requests_bitbar.15m.rb:160 | the errors the plugin raises itself have a non-empty message |
| RubyErrors.MessagesDistinct | Dev/Git/get_pull_requests_bitbar.15m.rb:160 | two errors the plugin raises itself have the same message iff they are the same error |
| PullRequests.HandleReply | Dev/Git/get_pull_requests_bitbar.15m.rb:179-188 | the steps of the block compute AttemptRepo |
| PullRequests.ReadCount | Dev/Git/get_pull_requests_bitbar.15m.rb:180-181 | the count is read by the service's own method, or is the transport error |
| PullRequests.HandleCount | Dev/Git/get_pull_requests_bitbar.15m.rb:182-187 | once the count is read, appending the repo line and then the pull-request lines computes AttemptRepo |
| PullRequests.BuildRepoRequest | Dev/Git/get_pull_requests_bitbar.15m.rb:170-176 | token, then endpoint, then the request compute RequestFor |
| PullRequests.ErrorOutput | Dev/Git/get_pull_requests_bitbar.15m.rb:156-161 | a raising block prints "? " and the glyph, then "---" and "Got Error: <message>" in BitBar mode only; a block that does not raise prints nothing |
| PullRequests.RetrieveOne | Dev/Git/get_pull_requests_bitbar.15m.rb:170-188 | one turn (token, endpoint, request, reply, printing) advances the loop by RepoTurn |
| PullRequests.RepoTurn | Dev/Git/get_pull_requests_bitbar.15m.rb:169-188 | a repo's turn raises before sending iff its service is unknown; otherwise it sends the request built for it and prints at most three lines |
| PullRequests.TurnFacts | Dev/Git/get_pull_requests_bitbar.15m.rb:175-188 | a repo of a known service sends its request, adds the count read, appends its lines and prints the error block of what its block raised |
| PullRequests.VisitFacts | Dev/Git/get_pull_requests_bitbar.15m.rb:169-188 | with known services, every turn is taken, the per-repo additions are the counts read and the per-repo printed lines are the error blocks |
| RepoLoop.Loop | Dev/Git/get_pull_requests_bitbar.15m.rb:166-189 | repo_details always starts with "---"; never more requests than repos |
| RepoLoop.LoopLast | Dev/Git/get_pull_requests_bitbar.15m.rb:169-189 | the loop over one more repo is one more turn |
| RepoLoop.LoopRequests | Dev/Git/get_pull_requests_bitbar.15m.rb:169-189 | whatever the turns do, the i-th request is the one repo i sends; the loop is left iff it sent fewer requests than there are repos, at the first repo that raises before sending |
| RepoLoop.LoopAbortedStays | Dev/Git/get_pull_requests_bitbar.15m.rb:175 | after the exception no later repo changes anything |
| RepoLoop.LoopTotals | Dev/Git/get_pull_requests_bitbar.15m.rb:169-189 | when every turn is taken, the total and the number of printed lines are the sums of what each turn adds and prints |
| RepoLoop.LoopLines | Dev/Git/get_pull_requests_bitbar.15m.rb:166-189 | after the loop, repo_details is "---" followed by what each repo the loop got through appended, and the printed lines are what those repos printed, both in config order |
| PullRequests.RequestsInOrder | Dev/Git/get_pull_requests_bitbar.15m.rb:169-189 | each repo is requested once, in config order, whatever earlier repos did; the run stops exactly at the first unknown service, before requesting it |
| PullRequests.AbortedIffUnknown | Dev/Git/get_pull_requests_bitbar.15m.rb:175-177 | the run ends with an exception iff some repo names an unknown service |
| PullRequests.AttemptIgnoresMode | Dev/Git/get_pull_requests_bitbar.15m.rb:182-186 | BitBar mode changes neither the count added nor whether the block raises |
| PullRequests.TotalIsSum | Dev/Git/get_pull_requests_bitbar.15m.rb:179-182 | the total is the sum over the repos of the count each one read (0 when it read none), whatever failed before or after |
| PullRequests.TurnLines | Dev/Git/get_pull_requests_bitbar.15m.rb:179-188 | with known services, what the turns print and append is, repo after repo, the error block of what each raised and the lines each appended |
| PullRequests.RetrieveLines | Dev/Git/get_pull_requests_bitbar.15m.rb:156-189 | whatever the services answer, the printed lines are the error blocks of the repos the loop got through, in config order, and repo_details is "---" and their lines, in the same order |
| PullRequests.BitbucketLineInMenu | Dev/Git/get_pull_requests_bitbar.15m.rb:184-187 | in BitBar mode a Bitbucket repo whose count is read keeps its line in repo_details, although its block raised |
| PullRequests.FailedRequestAddsNothing | Dev/Git/get_pull_requests_bitbar.15m.rb:154-161 | a repo whose request fails adds 0 to the total and prints its error |
| PullRequests.ErrorsPrinted | Dev/Git/get_pull_requests_bitbar.15m.rb:156-161 | with known services, the printed lines are the error blocks of the repos in config order: one block per failing repo (1 line, or 3 in BitBar mode), and outside BitBar mode every line is "? " and the glyph |
| PullRequests.SummaryLineShows | Dev/Git/get_pull_requests_bitbar.15m.rb:191-195 | a positive total reads back from the summary line, in both modes; all non-positive totals give the same line |
| PullRequests.SummaryLine | Dev/Git/get_pull_requests_bitbar.15m.rb:191-195 | the summary line, printed after any error blocks, starts with the white colour, the total and the glyph when the total is positive; otherwise with the check mark, after the green colour in BitBar mode |
| PullRequests.RetrieveOutput | Dev/Git/get_pull_requests_bitbar.15m.rb:165-197 | the output begins with the error lines printed during the loop; the requests and the exception are those of the loop |
| PullRequests.OutputShape | Dev/Git/get_pull_requests_bitbar.15m.rb:191-196 | a completed run prints the error blocks, then the summary line, then, in BitBar mode only, repo_details joined by line breaks, which starts with "---" |
| PullRequests.GetPullRequests.RetrievePrCounts | Dev/Git/get_pull_requests_bitbar.15m.rb:165-197 | the loop over @repos with its local total, repo_details and printing computes RetrieveOutput |
| PullRequests.WeekendGating | Dev/Git/get_pull_requests_bitbar.15m.rb:96-116 | on Saturday or Sunday, without should_monitor_on_weekends true, nothing is sent or printed; otherwise the run does not depend on the day and a completed run prints something |
| PullRequests.Run | Dev/Git/get_pull_requests_bitbar.15m.rb:96-105 | a configuration without a repos list ends in an exception with nothing printed or sent; never more requests than repo entries |
| PullRequests.GetPullRequests.DoIt | Dev/Git/get_pull_requests_bitbar.15m.rb:96-105 | parse, weekend check, retrieve computes Run, and the four fields hold what parse_yaml_config stored |

## Left out

- The network, TLS and Net::HTTP are left out. Each exchange is the `network` parameter, which answers with an exception message or a parsed reply. Net::HTTP's refusal of a header value with a line break (a Bitbucket token whose `username:app_password` is longer than 45 UTF-8 bytes, so that its Base64 is longer than 60 characters) is one such exception message.
- `JSON.parse` is left out. A body is already parsed into the parts the plugin reads: an array of pull requests, or an object's key count and its `size`. Top-level JSON scalars, floating-point sizes, pull-request elements that are not objects, and `title`/`number`/`html_url` values that are not strings or integers are not modelled.
- `YAML.load_file`, the missing-file message, `exit` and the `configs/repos.yaml` path are left out. A loaded file is the `YamlConfig` value. YAML values of other types than those declared are not modelled, for example a number as a username.
- `Time.now` is left out; the weekday is a parameter.
- `$PROGRAM_NAME` is left out. The BitBar-mode test `=~ /bitbar/i` is a boolean parameter, and the early return at line 97, when the file is not run directly, is not modelled.
- `URI endpoint` at line 144 runs outside the rescue, so a repo path that is not a valid URI ends the whole run. URI syntax is not modelled; every endpoint is taken as valid.
- RubyText.ToI: underscores between digits (`"1_000".to_i` is 1000), which Ruby's `to_i` accepts, are not modelled; the number ends at the first underscore.
- RepoLoop.Loop: its own contract gives only the first line of repo_details and the bound on requests; what the loop leaves is stated by LoopRequests, LoopTotals and LoopLines.
- The unused ANSI globals are not modelled: black, red and the background colours.
- Ruby exception messages follow Ruby 3.3 wording. Transport failures carry whatever message the `network` parameter gives.
- Ruby's `puts` of a string containing newlines writes it as one call. The menu is one string joined with "\n", as in the source.
