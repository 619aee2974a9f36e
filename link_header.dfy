/**
 * The ad-hoc parse of a GitHub `Link` response header in pr_count_for_github
 * (Dev/Git/get_pull_requests_bitbar.15m.rb:201-207): the header is split at
 * commas, each element is matched against /&page=(.*)>; rel="(.*)"/, the
 * captured page is stored under the captured rel, later elements overwriting
 * earlier ones, and the count is the page stored under "last".
 *
 * The pattern is matched as Ruby's regular-expression engine does: the
 * leftmost starting position wins, then the longest first group, then the
 * longest second group; `.` matches any character except "\n".
 */
module LinkHeader {
  import opened Wrappers
  import opened RubyErrors
  import RubyText

  const PageMarker: string := "&page="
  const RelMarker: string := ">; rel=\""

  /** s holds the text m at position p. */
  predicate At(s: string, p: int, m: string)
  {
    0 <= p && p + |m| <= |s| && s[p..p + |m|] == m
  }

  /**
   * /&page=(.*)>; rel="(.*)"/ matches s from position i, group 1 being
   * s[i+6..j] and group 2 being s[j+8..k], the closing '"' sitting at k.
   */
  ghost predicate IsMatch(s: string, i: int, j: int, k: int)
  {
    0 <= i && i + |PageMarker| <= j && j + |RelMarker| <= k < |s| &&
    At(s, i, PageMarker) && At(s, j, RelMarker) && s[k] == '"' &&
    (forall p :: i <= p < k ==> s[p] != '\n')
  }

  /** The match Ruby reports: no match starts earlier, and none from i has longer groups. */
  ghost predicate IsLeftmostGreedy(s: string, i: int, j: int, k: int)
  {
    IsMatch(s, i, j, k) &&
    forall i', j', k' :: IsMatch(s, i', j', k') ==>
      i <= i' && (i' == i ==> j' <= j && (j' == j ==> k' <= k))
  }

  /** The end of the line that holds position i. */
  function LineEnd(s: string, i: int): (e: int)
    requires 0 <= i <= |s|
    ensures i <= e <= |s| && (e < |s| ==> s[e] == '\n')
    ensures forall p :: i <= p < e ==> s[p] != '\n'
    decreases |s| - i
  {
    if i == |s| || s[i] == '\n' then i else LineEnd(s, i + 1)
  }

  /** The last '"' in s[lo..hi]. */
  function LastQuote(s: string, lo: int, hi: int): (r: Option<int>)
    requires 0 <= lo <= hi <= |s|
    ensures r.Some? ==> lo <= r.value < hi && s[r.value] == '"'
    ensures r.Some? ==> forall p :: r.value < p < hi ==> s[p] != '"'
    ensures r.None? ==> forall p :: lo <= p < hi ==> s[p] != '"'
    decreases hi - lo
  {
    if lo == hi then None
    else if s[hi - 1] == '"' then Some(hi - 1)
    else LastQuote(s, lo, hi - 1)
  }

  /** The text from j on can end the match inside s[..hi]: the rel marker, then a '"' before hi. */
  predicate RelEnd(s: string, j: int, hi: int)
    requires 0 <= hi <= |s|
  {
    At(s, j, RelMarker) && j + |RelMarker| <= hi && LastQuote(s, j + |RelMarker|, hi).Some?
  }

  /** The greatest j in [lo, top] from which the match can end before hi, with its last quote. */
  function LastRel(s: string, lo: int, top: int, hi: int): (r: Option<(int, int)>)
    requires 0 <= lo && 0 <= hi <= |s|
    ensures r.Some? ==> (lo <= r.value.0 <= top && RelEnd(s, r.value.0, hi) &&
      Some(r.value.1) == LastQuote(s, r.value.0 + |RelMarker|, hi))
    ensures r.Some? ==> forall j :: r.value.0 < j <= top ==> !RelEnd(s, j, hi)
    ensures r.None? ==> forall j :: lo <= j <= top ==> !RelEnd(s, j, hi)
    decreases top - lo + 1
  {
    if top < lo then None
    else if RelEnd(s, top, hi) then Some((top, LastQuote(s, top + |RelMarker|, hi).value))
    else LastRel(s, lo, top - 1, hi)
  }

  /** The greedy choice of both groups for a match starting at i. */
  function MatchAt(s: string, i: int): (r: Option<(int, int)>)
    requires At(s, i, PageMarker)
    ensures r.Some? ==> IsMatch(s, i, r.value.0, r.value.1)
  {
    var e := LineEnd(s, i);
    LastRel(s, i + |PageMarker|, e - |RelMarker| - 1, e)
  }

  /** The leftmost match starting at or after from, with its greedy groups. */
  function FindMatch(s: string, from: nat): (r: Option<(int, int, int)>)
    ensures r.Some? ==> from <= r.value.0 && IsMatch(s, r.value.0, r.value.1, r.value.2)
    decreases |s| - from
  {
    if from + |PageMarker| > |s| then None
    else if At(s, from, PageMarker) && MatchAt(s, from).Some? then
      Some((from, MatchAt(s, from).value.0, MatchAt(s, from).value.1))
    else FindMatch(s, from + 1)
  }

  /** String#match(/&page=(.*)>; rel="(.*)"/) followed by captures: Some((page, rel)), or None for nil. */
  function MatchLink(s: string): (r: Option<(string, string)>)
    ensures r.Some? <==> FindMatch(s, 0).Some?
    ensures r.Some? ==> '\n' !in r.value.0 && '\n' !in r.value.1
  {
    match FindMatch(s, 0)
    case None => None
    case Some((i, j, k)) =>
      // FindMatch's IsMatch bounds i, j and k, so both captures are slices of s.
      SliceHasNoBreak(s, i + |PageMarker|, j, k);
      SliceHasNoBreak(s, j + |RelMarker|, k, k);
      Some((s[i + |PageMarker|..j], s[j + |RelMarker|..k]))
  }

  /** A slice of a stretch of s without line breaks has none. */
  lemma SliceHasNoBreak(s: string, lo: int, hi: int, end: int)
    requires 0 <= lo <= hi <= end <= |s|
    requires forall p :: lo <= p < end ==> s[p] != '\n'
    ensures '\n' !in s[lo..hi]
  {
    forall c | 0 <= c < hi - lo ensures s[lo..hi][c] != '\n' {
      assert s[lo..hi][c] == s[lo + c];
    }
  }

  /** MatchAt finds a match at i, and its groups are at least as long as those of any other. */
  lemma MatchAtGreedy(s: string, i: int, j: int, k: int)
    requires IsMatch(s, i, j, k)
    ensures MatchAt(s, i).Some?
    ensures var (j0, k0) := MatchAt(s, i).value; IsMatch(s, i, j0, k0)
    ensures var (j0, k0) := MatchAt(s, i).value; j <= j0 && (j == j0 ==> k <= k0)
  {
    var e := LineEnd(s, i);
    assert k < e;
    assert LastQuote(s, j + |RelMarker|, e).Some?;
    assert RelEnd(s, j, e);
    MatchAtSound(s, i);
  }

  /** Whatever MatchAt reports is a match of the pattern. */
  lemma MatchAtSound(s: string, i: int)
    requires At(s, i, PageMarker)
    ensures MatchAt(s, i).Some? ==> var (j, k) := MatchAt(s, i).value; IsMatch(s, i, j, k)
  {
  }

  /** FindMatch reports the leftmost match and its greedy groups, and None only when there is none. */
  lemma {:induction false} FindMatchCorrect(s: string, from: nat)
    ensures FindMatch(s, from).None? ==>
      forall i, j, k :: from <= i && IsMatch(s, i, j, k) ==> false
    ensures FindMatch(s, from).Some? ==>
      var (i, j, k) := FindMatch(s, from).value;
      from <= i && IsMatch(s, i, j, k) &&
      forall i', j', k' :: from <= i' && IsMatch(s, i', j', k') ==>
        i <= i' && (i' == i ==> j' <= j && (j' == j ==> k' <= k))
    decreases |s| - from
  {
    if from + |PageMarker| > |s| {
    } else if At(s, from, PageMarker) && MatchAt(s, from).Some? {
      MatchAtSound(s, from);
      forall i', j', k' | from <= i' && IsMatch(s, i', j', k')
        ensures from <= i' && (i' == from ==> (j' <= MatchAt(s, from).value.0 &&
          (j' == MatchAt(s, from).value.0 ==> k' <= MatchAt(s, from).value.1)))
      {
        if i' == from {
          MatchAtGreedy(s, from, j', k');
        }
      }
    } else {
      FindMatchCorrect(s, from + 1);
      forall i, j, k | IsMatch(s, i, j, k)
        ensures i != from
      {
        if i == from {
          MatchAtGreedy(s, i, j, k);
        }
      }
    }
  }

  /** MatchLink is exactly the regular-expression match: nil when nothing matches, else the leftmost greedy captures. */
  lemma MatchLinkCorrect(s: string)
    ensures MatchLink(s).None? <==> forall i, j, k :: !IsMatch(s, i, j, k)
    ensures MatchLink(s).Some? ==>
      var (i, j, k) := FindMatch(s, 0).value;
      IsLeftmostGreedy(s, i, j, k) &&
      MatchLink(s).value == (s[i + |PageMarker|..j], s[j + |RelMarker|..k])
  {
    FindMatchCorrect(s, 0);
    if FindMatch(s, 0).Some? {
      var (i, j, k) := FindMatch(s, 0).value;
      assert IsMatch(s, i, j, k);
      assert MatchLink(s) == Some((s[i + |PageMarker|..j], s[j + |RelMarker|..k]));
    }
  }

  /** One element of a Link header as GitHub writes it, `<...&page=N>; rel="name"`, the text before "&page=" being target. */
  datatype LinkElement = LinkElement(target: string, page: string, rel: string)

  function Format(e: LinkElement): string
  {
    e.target + PageMarker + e.page + RelMarker + e.rel + "\""
  }

  /** An element whose page and rel the pattern captures exactly. */
  predicate WellFormed(e: LinkElement)
  {
    (forall p :: 0 <= p < |e.target| ==> !At(e.target, p, PageMarker)) &&
    '\n' !in e.page && '\n' !in e.rel && '"' !in e.rel
  }

  lemma FormatMatches(e: LinkElement)
    requires WellFormed(e)
    ensures IsMatch(Format(e), |e.target|, |e.target| + |PageMarker| + |e.page|, |Format(e)| - 1)
  {
    var s := Format(e);
    var i, j := |e.target|, |e.target| + |PageMarker| + |e.page|;
    assert s == e.target + (PageMarker + (e.page + (RelMarker + (e.rel + "\""))));
    assert s[i..i + |PageMarker|] == PageMarker;
    assert s[j..j + |RelMarker|] == RelMarker;
    forall p | i <= p < |s| - 1
      ensures s[p] != '\n'
    {
      if p < i + |PageMarker| {
        assert s[p] == PageMarker[p - i];
      } else if p < j {
        assert s[p] == e.page[p - i - |PageMarker|];
      } else if p < j + |RelMarker| {
        assert s[p] == RelMarker[p - j];
      } else {
        assert s[p] == e.rel[p - j - |RelMarker|];
      }
    }
  }

  /** No match of the pattern starts inside the target of a well-formed element. */
  lemma NoEarlierStart(e: LinkElement, i: int)
    requires WellFormed(e) && 0 <= i < |e.target|
    ensures !At(Format(e), i, PageMarker)
  {
    var s := Format(e);
    var t := |e.target|;
    assert s == e.target + (PageMarker + (e.page + (RelMarker + (e.rel + "\""))));
    if i + |PageMarker| <= t {
      assert s[i..i + |PageMarker|] == e.target[i..i + |PageMarker|];
      assert !At(e.target, i, PageMarker);
    } else if i + |PageMarker| <= |s| {
      assert s[i..i + |PageMarker|][t - i] == s[t] == '&';
      assert PageMarker[t - i] != '&';
    }
  }

  /** No rel marker with room for a closing '"' after it starts after the element's own rel marker. */
  lemma NoLaterRel(e: LinkElement, j: int)
    requires WellFormed(e)
    requires |e.target| + |PageMarker| + |e.page| < j && j + |RelMarker| < |Format(e)|
    ensures !At(Format(e), j, RelMarker)
  {
    var s := Format(e);
    var j0 := |e.target| + |PageMarker| + |e.page|;
    assert s == e.target + (PageMarker + (e.page + (RelMarker + (e.rel + "\""))));
    assert s[j + 7] == e.rel[j + 7 - j0 - |RelMarker|];
    assert e.rel[j + 7 - j0 - |RelMarker|] in e.rel;
    assert s[j..j + |RelMarker|][7] == s[j + 7] != RelMarker[7];
  }

  /** The leftmost greedy match of a well-formed element is the one the element was built from. */
  lemma FindMatchFormat(e: LinkElement)
    requires WellFormed(e)
    ensures FindMatch(Format(e), 0) ==
      Some((|e.target|, |e.target| + |PageMarker| + |e.page|, |Format(e)| - 1))
  {
    var s := Format(e);
    var i0, j0, k0 := |e.target|, |e.target| + |PageMarker| + |e.page|, |s| - 1;
    FormatMatches(e);
    FindMatchCorrect(s, 0);
    var (i, j, k) := FindMatch(s, 0).value;
    assert i <= i0 && (i == i0 ==> j0 <= j && (j == j0 ==> k0 <= k));
    forall p | 0 <= p < i0
      ensures !At(s, p, PageMarker)
    {
      NoEarlierStart(e, p);
    }
    assert i == i0;
    forall q | j0 < q && q + |RelMarker| < |s|
      ensures !At(s, q, RelMarker)
    {
      NoLaterRel(e, q);
    }
    assert j == j0;
  }

  /** The pattern reads a well-formed element's page and rel back. */
  lemma MatchLinkFormat(e: LinkElement)
    requires WellFormed(e)
    ensures MatchLink(Format(e)) == Some((e.page, e.rel))
  {
    var s := Format(e);
    var i0, j0, k0 := |e.target|, |e.target| + |PageMarker| + |e.page|, |s| - 1;
    FindMatchFormat(e);
    var front := e.target + PageMarker;
    var left := front + e.page;
    var rel := RelMarker + e.rel;
    assert s == left + (rel + "\"");
    assert s[..j0] == left;
    assert s[i0 + |PageMarker|..j0] == left[|front|..] == e.page;
    assert s[j0..] == rel + "\"";
    assert s[j0..k0] == s[j0..][..|rel|] == rel;
    assert s[j0 + |RelMarker|..k0] == rel[|RelMarker|..] == e.rel;
  }

  /** The page captured from an element the pattern matches. */
  function PageOf(element: string): string
    requires MatchLink(element).Some?
  {
    MatchLink(element).value.0
  }

  /** The rel captured from an element the pattern matches. */
  function RelOf(element: string): string
    requires MatchLink(element).Some?
  {
    MatchLink(element).value.1
  }

  predicate AllMatch(elements: seq<string>)
  {
    forall i :: 0 <= i < |elements| ==> MatchLink(elements[i]).Some?
  }

  /**
   * The `links` hash after the loop over the header's elements: links[rel] = page
   * for each element in turn; an element the pattern misses raises.
   */
  function LinkTable(elements: seq<string>): (r: Result<map<string, string>, RubyError>)
    ensures r.Err? ==> r.error == NoLinkMatch
    ensures r.Ok? && elements != [] ==>
      MatchLink(elements[|elements| - 1]).Some? && RelOf(elements[|elements| - 1]) in r.value &&
      r.value[RelOf(elements[|elements| - 1])] == PageOf(elements[|elements| - 1])
    decreases |elements|
  {
    if elements == [] then Ok(map[])
    else
      match LinkTable(elements[..|elements| - 1])
      case Err(e) => Err(e)
      case Ok(links) =>
        match MatchLink(elements[|elements| - 1])
        case None => Err(NoLinkMatch)
        case Some((page, rel)) => Ok(links[rel := page])
  }

  /** links["last"].to_i, where a missing entry is nil and nil.to_i is 0. */
  function LastPage(links: map<string, string>): int
  {
    if "last" in links then RubyText.ToI(links["last"]) else 0
  }

  /** The count pr_count_for_github takes from a Link header. */
  function LinkCount(header: string): (r: Result<int, RubyError>)
    ensures r.Err? ==> r.error == NoLinkMatch
    ensures RubyText.Split(header) == [] ==> r == Ok(0)
  {
    match LinkTable(RubyText.Split(header))
    case Err(e) => Err(e)
    case Ok(links) => Ok(LastPage(links))
  }

  /** The loop completes exactly when the pattern matches every element; otherwise it raises NoMethodError. */
  lemma {:induction false} LinkTableFails(elements: seq<string>)
    ensures LinkTable(elements).Ok? <==> AllMatch(elements)
    ensures LinkTable(elements).Err? ==> LinkTable(elements).error == NoLinkMatch
    decreases |elements|
  {
    if elements != [] {
      var init := elements[..|elements| - 1];
      LinkTableFails(init);
      assert AllMatch(elements) <==> AllMatch(init) && MatchLink(elements[|elements| - 1]).Some? by {
        if AllMatch(init) && MatchLink(elements[|elements| - 1]).Some? {
          forall i | 0 <= i < |elements|
            ensures MatchLink(elements[i]).Some?
          {
            if i < |elements| - 1 {
              assert elements[i] == init[i];
            }
          }
        }
      }
    }
  }

  /** The captured (page, rel) pairs of elements the pattern all matches. */
  function Captures(elements: seq<string>): (pairs: seq<(string, string)>)
    requires AllMatch(elements)
    ensures |pairs| == |elements|
    ensures forall i :: 0 <= i < |elements| ==> pairs[i] == MatchLink(elements[i]).value
  {
    seq(|elements|, i requires 0 <= i < |elements| => MatchLink(elements[i]).value)
  }

  /** A hash filled from (page, rel) pairs in order, each storing page under rel. */
  function Table(pairs: seq<(string, string)>): map<string, string>
    decreases |pairs|
  {
    if pairs == [] then map[]
    else Table(pairs[..|pairs| - 1])[pairs[|pairs| - 1].1 := pairs[|pairs| - 1].0]
  }

  lemma {:induction false} LinkTableIsTable(elements: seq<string>)
    requires AllMatch(elements)
    ensures LinkTable(elements) == Ok(Table(Captures(elements)))
    decreases |elements|
  {
    if elements != [] {
      var init := elements[..|elements| - 1];
      assert AllMatch(init) by {
        forall i | 0 <= i < |init| ensures MatchLink(init[i]).Some? {
          assert init[i] == elements[i];
        }
      }
      LinkTableIsTable(init);
      assert Captures(elements)[..|elements| - 1] == Captures(init);
    }
  }

  /** Later pairs overwrite earlier ones: the table maps exactly the rels, each to the page of its last pair. */
  lemma {:induction false} TableLastWins(pairs: seq<(string, string)>)
    ensures forall rel :: rel in Table(pairs) <==> exists i :: 0 <= i < |pairs| && pairs[i].1 == rel
    ensures forall i :: 0 <= i < |pairs| && (forall j :: i < j < |pairs| ==> pairs[j].1 != pairs[i].1) ==>
      Table(pairs)[pairs[i].1] == pairs[i].0
    decreases |pairs|
  {
    if pairs != [] {
      var n := |pairs| - 1;
      var init := pairs[..n];
      TableLastWins(init);
      forall rel
        ensures rel in Table(pairs) <==> exists i :: 0 <= i < |pairs| && pairs[i].1 == rel
      {
        if rel in Table(init) {
          var i :| 0 <= i < |init| && init[i].1 == rel;
          assert pairs[i] == init[i];
        }
        if exists i :: 0 <= i < |pairs| && pairs[i].1 == rel {
          var i :| 0 <= i < |pairs| && pairs[i].1 == rel;
          if i < n {
            assert init[i] == pairs[i];
          }
        }
      }
      forall i | 0 <= i < |pairs| && (forall j :: i < j < |pairs| ==> pairs[j].1 != pairs[i].1)
        ensures Table(pairs)[pairs[i].1] == pairs[i].0
      {
        if i < n {
          assert init[i] == pairs[i];
          forall j | i < j < |init| ensures init[j].1 != init[i].1 {
            assert init[j] == pairs[j];
          }
        }
      }
    }
  }

  /** With a Link header the count raises, with NoMethodError, exactly when the pattern misses an element. */
  lemma LinkCountFails(header: string)
    ensures LinkCount(header).Err? <==> !AllMatch(RubyText.Split(header))
    ensures LinkCount(header).Err? ==> LinkCount(header).error == NoLinkMatch
  {
    LinkTableFails(RubyText.Split(header));
  }

  /** When every element matches and none has rel "last", the count is 0 (nil.to_i). */
  lemma LinkCountNoLast(header: string)
    requires var elements := RubyText.Split(header);
      AllMatch(elements) && forall i :: 0 <= i < |elements| ==> RelOf(elements[i]) != "last"
    ensures LinkCount(header) == Ok(0)
  {
    var elements := RubyText.Split(header);
    LinkTableIsTable(elements);
    var pairs := Captures(elements);
    TableLastWins(pairs);
    assert forall i :: 0 <= i < |pairs| ==> pairs[i].1 != "last";
  }

  /** When every element matches, the count is the to_i of the page of the last element with rel "last". */
  lemma LinkCountLast(header: string, i: nat)
    requires var elements := RubyText.Split(header);
      AllMatch(elements) && i < |elements| && RelOf(elements[i]) == "last" &&
      forall j :: i < j < |elements| ==> RelOf(elements[j]) != "last"
    ensures LinkCount(header) == Ok(RubyText.ToI(PageOf(RubyText.Split(header)[i])))
  {
    var elements := RubyText.Split(header);
    var pairs := Captures(elements);
    assert LinkTable(elements) == Ok(Table(pairs)) by { LinkTableIsTable(elements); }
    assert pairs[i] == (PageOf(elements[i]), "last");
    assert Table(pairs)["last"] == PageOf(elements[i]) by {
      assert forall j :: i < j < |pairs| ==> pairs[j].1 != pairs[i].1;
      TableLastWins(pairs);
    }
  }

  /** The text of each element. */
  function Formats(es: seq<LinkElement>): (fs: seq<string>)
    ensures |fs| == |es| && forall i :: 0 <= i < |es| ==> fs[i] == Format(es[i])
  {
    seq(|es|, i requires 0 <= i < |es| => Format(es[i]))
  }

  /** A Link header made of the given elements, joined with commas. */
  function FormatHeader(es: seq<LinkElement>): string
  {
    RubyText.Join(Formats(es), ",")
  }

  /** An element that can be written into a header without changing how it splits. */
  predicate Writable(e: LinkElement)
  {
    WellFormed(e) && ',' !in e.target && ',' !in e.page && ',' !in e.rel
  }

  lemma FormatCommaFree(e: LinkElement)
    requires Writable(e)
    ensures ',' !in Format(e) && Format(e) != ""
  {
    assert Format(e) == e.target + (PageMarker + (e.page + (RelMarker + (e.rel + "\""))));
  }

  /** String#split(',') gives back the elements a header was written from. */
  lemma SplitFormatHeader(es: seq<LinkElement>)
    requires forall i :: 0 <= i < |es| ==> Writable(es[i])
    ensures RubyText.Split(FormatHeader(es)) == Formats(es)
  {
    var fs := Formats(es);
    forall i | 0 <= i < |fs| ensures ',' !in fs[i] && fs[i] != "" {
      FormatCommaFree(es[i]);
    }
    RubyText.SplitJoin(fs);
  }

  /**
   * Reading back a header written from elements: the count is the to_i of the
   * page of the last element whose rel is "last", and 0 when there is none.
   */
  lemma FormatHeaderCount(es: seq<LinkElement>)
    requires forall i :: 0 <= i < |es| ==> Writable(es[i])
    ensures (forall i :: 0 <= i < |es| ==> es[i].rel != "last") ==> LinkCount(FormatHeader(es)) == Ok(0)
    ensures forall i :: (0 <= i < |es| && es[i].rel == "last" &&
      (forall j :: i < j < |es| ==> es[j].rel != "last")) ==>
      LinkCount(FormatHeader(es)) == Ok(RubyText.ToI(es[i].page))
  {
    var fs := Formats(es);
    SplitFormatHeader(es);
    forall i | 0 <= i < |fs|
      ensures MatchLink(fs[i]).Some? && RelOf(fs[i]) == es[i].rel && PageOf(fs[i]) == es[i].page
    {
      MatchLinkFormat(es[i]);
    }
    var header := FormatHeader(es);
    assert RubyText.Split(header) == fs;
    assert AllMatch(fs);
    if forall i :: 0 <= i < |es| ==> es[i].rel != "last" {
      assert forall i :: 0 <= i < |fs| ==> RelOf(fs[i]) != "last";
      LinkCountNoLast(header);
    }
    forall i | 0 <= i < |es| && es[i].rel == "last" && (forall j :: i < j < |es| ==> es[j].rel != "last")
      ensures LinkCount(header) == Ok(RubyText.ToI(es[i].page))
    {
      assert forall j :: i < j < |fs| ==> RelOf(fs[j]) != "last";
      LinkCountLast(header, i);
    }
  }
}
