/**
 * The loop of retrieve_pr_counts (Dev/Git/get_pull_requests_bitbar.15m.rb:165-189)
 * with what happens at one repo given as a function `visit`. The properties
 * that hold whatever the services answer (order, one request per repo,
 * the running total, the error output) are proved here once.
 */
module RepoLoop {
  import Config
  import Services

  /**
   * The locals of retrieve_pr_counts between two repos (the total and
   * repo_details), with what has been printed and sent so far; aborted once
   * an exception has left the loop.
   */
  datatype Progress = Progress(total: int, details: seq<string>, printed: seq<string>,
                               requests: seq<Services.Request>, aborted: bool)

  /**
   * What the turn of one repo does: raise before sending anything (an
   * unknown service), or send one request and add to the total, to
   * repo_details and to the printed lines.
   */
  datatype Turn = Unknown | Visited(request: Services.Request, added: int, details: seq<string>, printed: seq<string>)

  /** The turn of a repo, given the repo and the number of requests sent before it. */
  type Visitor = (Config.RepoConfig, nat) -> Turn

  const Start := Progress(0, ["---"], [], [], false)

  /** The locals after one more turn; nothing changes once the loop was left. */
  function Advance(p: Progress, t: Turn): Progress
  {
    if p.aborted then p
    else match t
      case Unknown => p.(aborted := true)
      case Visited(request, added, details, printed) =>
        Progress(p.total + added, p.details + details, p.printed + printed, p.requests + [request], false)
  }

  /** The loop over the given repos, in order. */
  function Loop(repos: seq<Config.RepoConfig>, visit: Visitor): (p: Progress)
    ensures |p.details| >= 1 && p.details[0] == "---"
    ensures |p.requests| <= |repos|
    decreases |repos|
  {
    if repos == [] then Start
    else
      var q := Loop(repos[..|repos| - 1], visit);
      Advance(q, visit(repos[|repos| - 1], |q.requests|))
  }

  /** The loop over the first i + 1 repos is the loop over the first i and one more turn. */
  lemma LoopLast(repos: seq<Config.RepoConfig>, i: nat, visit: Visitor)
    requires i < |repos|
    ensures Loop(repos[..i + 1], visit) ==
      Advance(Loop(repos[..i], visit), visit(repos[i], |Loop(repos[..i], visit).requests|))
  {
    assert repos[..i + 1][..i] == repos[..i];
  }

  /** Repo i was visited and the i-th request is the one its turn sent. */
  predicate SentAt(repos: seq<Config.RepoConfig>, requests: seq<Services.Request>, visit: Visitor, i: nat)
    requires i < |repos| && i < |requests|
  {
    visit(repos[i], i).Visited? && requests[i] == visit(repos[i], i).request
  }

  /**
   * Each repo sends its request once, in order, whatever the turns before
   * it did; the loop is left exactly at the first repo that raises before
   * sending.
   */
  lemma {:induction false} LoopRequests(repos: seq<Config.RepoConfig>, visit: Visitor)
    ensures Loop(repos, visit).aborted <==> |Loop(repos, visit).requests| < |repos|
    ensures forall i :: 0 <= i < |Loop(repos, visit).requests| ==> SentAt(repos, Loop(repos, visit).requests, visit, i)
    ensures Loop(repos, visit).aborted ==>
      visit(repos[|Loop(repos, visit).requests|], |Loop(repos, visit).requests|).Unknown?
    decreases |repos|
  {
    if repos != [] {
      var n := |repos| - 1;
      var init := repos[..n];
      var q := Loop(init, visit);
      var p := Loop(repos, visit);
      LoopRequests(init, visit);
      assert p == Advance(q, visit(repos[n], |q.requests|));
      forall i | 0 <= i < |p.requests| ensures SentAt(repos, p.requests, visit, i) {
        if i < |q.requests| {
          assert SentAt(init, q.requests, visit, i);
          assert init[i] == repos[i];
        }
      }
    }
  }

  /** Once the loop was left, the repos after that point change nothing. */
  lemma {:induction false} LoopAbortedStays(repos: seq<Config.RepoConfig>, j: nat, visit: Visitor)
    requires j <= |repos| && Loop(repos[..j], visit).aborted
    ensures Loop(repos, visit) == Loop(repos[..j], visit)
    decreases |repos| - j
  {
    if j < |repos| {
      var n := |repos| - 1;
      assert repos[..n][..j] == repos[..j];
      LoopAbortedStays(repos[..n], j, visit);
      LoopLast(repos, n, visit);
      assert repos[..n + 1] == repos;
    } else {
      assert repos[..j] == repos;
    }
  }

  function Sum(xs: seq<int>): int
    decreases |xs|
  {
    if xs == [] then 0 else Sum(xs[..|xs| - 1]) + xs[|xs| - 1]
  }

  function CountTrue(bs: seq<bool>): (n: nat)
    ensures n <= |bs|
    decreases |bs|
  {
    if bs == [] then 0 else CountTrue(bs[..|bs| - 1]) + (if bs[|bs| - 1] then 1 else 0)
  }

  /** Adding u for each true flag and 0 for each false one adds u times the number of true flags. */
  lemma {:induction false} SumOfFlags(xs: seq<int>, bs: seq<bool>, u: int)
    requires |xs| == |bs|
    requires forall i :: 0 <= i < |xs| ==> xs[i] == (if bs[i] then u else 0)
    ensures Sum(xs) == u * CountTrue(bs)
    decreases |xs|
  {
    if xs != [] {
      var n := |xs| - 1;
      SumOfFlags(xs[..n], bs[..n], u);
    }
  }

  /** What each repo's turn adds to the total, in the order of the repos. */
  function AddedBy(repos: seq<Config.RepoConfig>, visit: Visitor): (xs: seq<int>)
    ensures |xs| == |repos|
  {
    seq(|repos|, i requires 0 <= i < |repos| => if visit(repos[i], i).Visited? then visit(repos[i], i).added else 0)
  }

  /** How many lines each repo's turn prints, in the order of the repos. */
  function PrintedBy(repos: seq<Config.RepoConfig>, visit: Visitor): (xs: seq<int>)
    ensures |xs| == |repos|
  {
    seq(|repos|, i requires 0 <= i < |repos| => if visit(repos[i], i).Visited? then |visit(repos[i], i).printed| else 0)
  }

  predicate Every(lines: seq<string>, m: string) { forall j :: 0 <= j < |lines| ==> lines[j] == m }

  lemma EveryAppend(a: seq<string>, b: seq<string>, m: string)
    requires Every(a, m) && Every(b, m)
    ensures Every(a + b, m)
  {
    forall j | 0 <= j < |a + b| ensures (a + b)[j] == m {
      if j >= |a| { assert (a + b)[j] == b[j - |a|]; }
    }
  }

  /** What the turns of the repos append to repo_details, one repo after the other. */
  function DetailsOf(repos: seq<Config.RepoConfig>, visit: Visitor): seq<string>
    decreases |repos|
  {
    if repos == [] then []
    else
      var n := |repos| - 1;
      var t := visit(repos[n], n);
      DetailsOf(repos[..n], visit) + (if t.Visited? then t.details else [])
  }

  /** What the turns of the repos print, one repo after the other. */
  function PrintedOf(repos: seq<Config.RepoConfig>, visit: Visitor): seq<string>
    decreases |repos|
  {
    if repos == [] then []
    else
      var n := |repos| - 1;
      var t := visit(repos[n], n);
      PrintedOf(repos[..n], visit) + (if t.Visited? then t.printed else [])
  }

  /** Every line a visited repo appends is in what the repos append. */
  lemma {:induction false} DetailsOfHolds(repos: seq<Config.RepoConfig>, visit: Visitor, i: nat, j: nat)
    requires i < |repos| && visit(repos[i], i).Visited? && j < |visit(repos[i], i).details|
    ensures visit(repos[i], i).details[j] in DetailsOf(repos, visit)
    decreases |repos|
  {
    var n := |repos| - 1;
    var init := repos[..n];
    if i < n {
      assert init[i] == repos[i];
      DetailsOfHolds(init, visit, i, j);
    } else {
      var last := visit(repos[n], n).details;
      assert DetailsOf(repos, visit) == DetailsOf(init, visit) + last;
      assert last[j] in last;
    }
  }

  /**
   * After the loop, repo_details is "---" followed by what each repo the
   * loop got through appended, in the order of the repos, and the printed
   * lines are what those repos printed, in the same order; the repos from
   * the one that left the loop on add nothing.
   */
  lemma {:induction false} LoopLines(repos: seq<Config.RepoConfig>, visit: Visitor)
    ensures var p := Loop(repos, visit);
      p.details == ["---"] + DetailsOf(repos[..|p.requests|], visit) &&
      p.printed == PrintedOf(repos[..|p.requests|], visit)
    decreases |repos|
  {
    if repos == [] {
      assert ["---"] + [] == ["---"];
    } else {
      var n := |repos| - 1;
      var init := repos[..n];
      var q := Loop(init, visit);
      LoopLines(init, visit);
      var m := |q.requests|;
      var t := visit(repos[n], m);
      var p := Loop(repos, visit);
      assert p == Advance(q, t);
      if q.aborted || t.Unknown? {
        assert p.requests == q.requests && p.details == q.details && p.printed == q.printed;
        assert repos[..m] == init[..m];
      } else {
        LoopLinesVisited(repos, visit);
      }
    }
  }

  /** The step of LoopLines when the loop over all but the last repo completed and the last repo is visited. */
  lemma LoopLinesVisited(repos: seq<Config.RepoConfig>, visit: Visitor)
    requires repos != []
    requires var init := repos[..|repos| - 1]; var q := Loop(init, visit);
      !q.aborted && visit(repos[|repos| - 1], |q.requests|).Visited? &&
      q.details == ["---"] + DetailsOf(init[..|q.requests|], visit) &&
      q.printed == PrintedOf(init[..|q.requests|], visit)
    ensures var p := Loop(repos, visit);
      p.details == ["---"] + DetailsOf(repos[..|p.requests|], visit) &&
      p.printed == PrintedOf(repos[..|p.requests|], visit)
  {
    var n := |repos| - 1;
    var init := repos[..n];
    var q := Loop(init, visit);
    assert |q.requests| == n by { LoopRequests(init, visit); }
    var t := visit(repos[n], n);
    var p := Loop(repos, visit);
    assert p == Advance(q, t);
    assert init[..n] == init && repos[..n + 1] == repos;
    assert |p.requests| == n + 1;
    assert DetailsOf(repos, visit) == DetailsOf(init, visit) + t.details;
    assert PrintedOf(repos, visit) == PrintedOf(init, visit) + t.printed;
    assert p.details == (["---"] + DetailsOf(init, visit)) + t.details;
  }

  /**
   * When every repo is visited, the loop completes; the total is the sum of
   * what each turn adds, the number of printed lines the sum of what each
   * turn prints, and lines of which every turn prints only m are all m.
   */
  lemma {:induction false} LoopTotals(repos: seq<Config.RepoConfig>, visit: Visitor, m: string)
    requires forall i :: 0 <= i < |repos| ==> visit(repos[i], i).Visited?
    ensures !Loop(repos, visit).aborted && |Loop(repos, visit).requests| == |repos|
    ensures Loop(repos, visit).total == Sum(AddedBy(repos, visit))
    ensures |Loop(repos, visit).printed| == Sum(PrintedBy(repos, visit))
    ensures (forall i :: 0 <= i < |repos| ==> Every(visit(repos[i], i).printed, m)) ==> Every(Loop(repos, visit).printed, m)
    decreases |repos|
  {
    if repos != [] {
      var n := |repos| - 1;
      var init := repos[..n];
      assert forall i :: 0 <= i < n ==> init[i] == repos[i];
      LoopTotals(init, visit, m);
      var q := Loop(init, visit);
      var t := visit(repos[n], n);
      assert Loop(repos, visit) == Advance(q, t);
      assert AddedBy(repos, visit)[..n] == AddedBy(init, visit);
      assert PrintedBy(repos, visit)[..n] == PrintedBy(init, visit);
      if forall i :: 0 <= i < |repos| ==> Every(visit(repos[i], i).printed, m) {
        assert Every(t.printed, m);
        EveryAppend(q.printed, t.printed, m);
      }
    }
  }
}
