/** The preferred-domain evaluator: it finds the `http(s)://` URLs in a
    piece of research text, takes each URL's host, marks the URL preferred
    when a preferred domain occurs inside that host, and passes the text
    when the preferred share reaches a threshold, with a Markdown report. */
module DomainEvaluator {
  import opened PyBase
  import opened PyStr

  const HttpsScheme := "https://"
  const HttpScheme := "http://"

  /** A character of `[^\s\]\)>\}]`: no case variant of any of these brings
      another character into the class. */
  predicate IsUrlChar(c: char) {
    !IsSpace(c) && c != ']' && c != ')' && c != '>' && c != '}'
  }

  /** What `https?://[^\s\]\)>\}]+` matches as a whole, ignoring case: a
      scheme and at least one URL character after it, and only URL
      characters. */
  predicate IsUrl(u: string) {
    || (MatchesAtCI(u, HttpsScheme, 0) && |u| > |HttpsScheme|
        && forall k :: |HttpsScheme| <= k < |u| ==> IsUrlChar(u[k]))
    || (MatchesAtCI(u, HttpScheme, 0) && |u| > |HttpScheme|
        && forall k :: |HttpScheme| <= k < |u| ==> IsUrlChar(u[k]))
  }

  /** The end of the longest run of URL characters starting at `i`. */
  function RunEnd(s: string, i: nat): (j: nat)
    requires i <= |s|
    ensures i <= j <= |s|
    ensures forall k :: i <= k < j ==> IsUrlChar(s[k])
    ensures j == |s| || !IsUrlChar(s[j])
    decreases |s| - i
  {
    if i < |s| && IsUrlChar(s[i]) then RunEnd(s, i + 1) else i
  }

  /** The length of the scheme the pattern accepts at `j`: `https://` is
      tried first (the `s?` is greedy), then `http://`; either needs a URL
      character after it. 0 when neither applies. */
  function SchemeAt(s: string, j: nat): nat {
    if MatchesAtCI(s, HttpsScheme, j) && j + |HttpsScheme| < |s| && IsUrlChar(s[j + |HttpsScheme|]) then |HttpsScheme|
    else if MatchesAtCI(s, HttpScheme, j) && j + |HttpScheme| < |s| && IsUrlChar(s[j + |HttpScheme|]) then |HttpScheme|
    else 0
  }

  /** The length of the match that starts at `j`, 0 when none does. */
  function UrlLenAt(s: string, j: nat): (n: nat)
    requires j <= |s|
    ensures j + n <= |s|
  {
    var k := SchemeAt(s, j);
    if k == 0 then 0 else RunEnd(s, j + k) - j
  }

  /** A match is a URL and cannot be extended: the run of URL characters
      after the scheme is maximal. */
  lemma UrlLenAtIsMatch(s: string, j: nat)
    requires j <= |s| && UrlLenAt(s, j) > 0
    ensures var n := UrlLenAt(s, j);
      IsUrl(s[j..j + n]) && (j + n == |s| || !IsUrlChar(s[j + n]))
  {
    var k := SchemeAt(s, j);
    var e := RunEnd(s, j + k);
    assert forall m :: k <= m < e - j ==> s[j..e][m] == s[j + m];
    if k == |HttpsScheme| {
      MatchesAtSlice(s, HttpsScheme, j, e);
    } else {
      MatchesAtSlice(s, HttpScheme, j, e);
    }
  }

  /** A pattern as `findall` sees it: the length of the match that starts
      at each offset, 0 where none does. */
  type MatchLen = nat -> nat

  /** Every match of `len` stays inside a text of length `size`. */
  predicate FitsIn(len: MatchLen, size: nat) {
    forall j: nat :: j <= size ==> j + len(j) <= size
  }

  /** `findall(raw, pos=i)`: scan for the leftmost match, take it, and go
      on after it. */
  function FindAll(raw: string, i: nat, len: MatchLen): seq<string>
    requires i <= |raw| && FitsIn(len, |raw|)
    decreases |raw| - i
  {
    if i == |raw| then []
    else if len(i) > 0 then [raw[i..i + len(i)]] + FindAll(raw, i + len(i), len)
    else FindAll(raw, i + 1, len)
  }

  /** The offsets at which `findall` takes its matches, in the order taken. */
  function MatchOffsets(raw: string, i: nat, len: MatchLen): (o: seq<nat>)
    requires i <= |raw| && FitsIn(len, |raw|)
    ensures forall k :: 0 <= k < |o| ==> i <= o[k] < |raw| && len(o[k]) > 0
    decreases |raw| - i
  {
    if i == |raw| then []
    else if len(i) > 0 then [i] + MatchOffsets(raw, i + len(i), len)
    else MatchOffsets(raw, i + 1, len)
  }

  /** Entry `k` of `u` is the whole match at offset `o[k]`. */
  predicate EntriesAt(raw: string, o: seq<nat>, u: seq<string>, len: MatchLen) {
    && |o| == |u|
    && forall k :: 0 <= k < |u| ==> o[k] + len(o[k]) <= |raw| && u[k] == raw[o[k]..o[k] + len(o[k])]
  }

  /** Entry `k` of `findall` is the whole match at the `k`-th offset. */
  lemma {:induction false} FindAllEntries(raw: string, i: nat, len: MatchLen)
    requires i <= |raw| && FitsIn(len, |raw|)
    ensures EntriesAt(raw, MatchOffsets(raw, i, len), FindAll(raw, i, len), len)
    decreases |raw| - i
  {
    if i < |raw| {
      if len(i) > 0 {
        var n := i + len(i);
        FindAllEntries(raw, n, len);
        var o := MatchOffsets(raw, n, len);
        var u := FindAll(raw, n, len);
        var whole := [i] + o;
        var found := [raw[i..n]] + u;
        assert MatchOffsets(raw, i, len) == whole;
        assert FindAll(raw, i, len) == found;
        forall k | 0 <= k < |found|
          ensures whole[k] + len(whole[k]) <= |raw| && found[k] == raw[whole[k]..whole[k] + len(whole[k])]
        {
          if k > 0 {
            assert whole[k] == o[k - 1] && found[k] == u[k - 1];
          }
        }
        assert EntriesAt(raw, whole, found, len);
      } else {
        FindAllEntries(raw, i + 1, len);
      }
    }
  }

  /** Each match taken at the offsets `o` ends at or before the next
      offset. */
  predicate Apart(o: seq<nat>, len: MatchLen) {
    forall k :: 0 < k < |o| ==> o[k - 1] + len(o[k - 1]) <= o[k]
  }

  /** The matches are taken left to right and do not overlap. */
  lemma {:induction false} OffsetsApart(raw: string, i: nat, len: MatchLen)
    requires i <= |raw| && FitsIn(len, |raw|)
    ensures Apart(MatchOffsets(raw, i, len), len)
    decreases |raw| - i
  {
    if i < |raw| {
      if len(i) > 0 {
        OffsetsApart(raw, i + len(i), len);
        var o := MatchOffsets(raw, i + len(i), len);
        var whole := [i] + o;
        forall k | 0 < k < |whole| ensures whole[k - 1] + len(whole[k - 1]) <= whole[k] {
          assert whole[k] == o[k - 1];
          if k > 1 {
            assert whole[k - 1] == o[k - 2];
          }
        }
        assert Apart(whole, len);
      } else {
        OffsetsApart(raw, i + 1, len);
      }
    }
  }

  /** Offset `j` lies inside one of the matches taken at the offsets `o`. */
  predicate InsideMatch(o: seq<nat>, len: MatchLen, j: int) {
    exists k :: 0 <= k < |o| && o[k] <= j < o[k] + len(o[k])
  }

  /** No match is skipped: an offset at or after `i` where a match starts
      lies inside a match `findall` took. */
  lemma {:induction false} OffsetsCover(raw: string, i: nat, len: MatchLen, j: nat)
    requires i <= |raw| && FitsIn(len, |raw|)
    requires i <= j < |raw| && len(j) > 0
    ensures InsideMatch(MatchOffsets(raw, i, len), len, j)
    decreases |raw| - i
  {
    var o := MatchOffsets(raw, i, len);
    if len(i) == 0 {
      OffsetsCover(raw, i + 1, len, j);
    } else if j < i + len(i) {
      assert o[0] == i;
    } else {
      OffsetsCover(raw, i + len(i), len, j);
      var rest := MatchOffsets(raw, i + len(i), len);
      var k :| 0 <= k < |rest| && rest[k] <= j < rest[k] + len(rest[k]);
      assert o[k + 1] == rest[k];
    }
  }

  /** `findall` returns nothing exactly when no match starts at or after
      `i`. */
  lemma {:induction false} FindAllEmpty(raw: string, i: nat, len: MatchLen)
    requires i <= |raw| && FitsIn(len, |raw|)
    ensures FindAll(raw, i, len) == [] <==> forall j :: i <= j < |raw| ==> len(j) == 0
    decreases |raw| - i
  {
    if i < |raw| && len(i) == 0 {
      FindAllEmpty(raw, i + 1, len);
    }
  }

  /** When every match of `len` is a whole occurrence of `P`, and every
      occurrence of `P` starts a match, `findall` yields only occurrences
      of `P`, and none exactly when the text holds none. */
  lemma FindAllOf(raw: string, len: MatchLen, P: string -> bool)
    requires FitsIn(len, |raw|)
    requires forall j :: 0 <= j < |raw| && len(j) > 0 ==> P(raw[j..j + len(j)])
    requires forall j, e :: 0 <= j < e <= |raw| && P(raw[j..e]) ==> len(j) > 0
    ensures forall k :: 0 <= k < |FindAll(raw, 0, len)| ==> P(FindAll(raw, 0, len)[k])
    ensures FindAll(raw, 0, len) == [] <==> forall j, e :: 0 <= j < e <= |raw| ==> !P(raw[j..e])
  {
    var o := MatchOffsets(raw, 0, len);
    FindAllEntries(raw, 0, len);
    FindAllEmpty(raw, 0, len);
    if FindAll(raw, 0, len) != [] {
      var j :| 0 <= j < |raw| && len(j) > 0;
      assert P(raw[j..j + len(j)]);
    }
  }

  /** The URL pattern's match length at every offset of `raw`. */
  function UrlLen(raw: string): (len: MatchLen)
    ensures FitsIn(len, |raw|)
  {
    (j: nat) => if j <= |raw| then UrlLenAt(raw, j) else 0
  }

  /** No URL character follows offset `e`. */
  predicate RunStops(raw: string, e: nat) {
    e == |raw| || (e < |raw| && !IsUrlChar(raw[e]))
  }

  /** Each match the URL pattern's length gives is a whole URL and cannot
      be extended. */
  lemma UrlLenIsMatch(raw: string)
    ensures forall j :: 0 <= j < |raw| && UrlLen(raw)(j) > 0 ==>
      var e := j + UrlLen(raw)(j);
      e <= |raw| && IsUrl(raw[j..e]) && RunStops(raw, e)
  {
    forall j | 0 <= j < |raw| && UrlLen(raw)(j) > 0
      ensures var e := j + UrlLen(raw)(j);
        e <= |raw| && IsUrl(raw[j..e]) && RunStops(raw, e)
    {
      UrlLenAtIsMatch(raw, j);
    }
  }

  /** Each match the URL pattern's length gives is followed by no URL
      character. */
  lemma UrlLenStops(raw: string)
    ensures forall j :: 0 <= j < |raw| && UrlLen(raw)(j) > 0 ==> RunStops(raw, j + UrlLen(raw)(j))
  {
    UrlLenIsMatch(raw);
  }

  /** A URL that starts at `j` is matched there: the length the scan takes
      at `j` is positive. */
  lemma UrlStartsMatch(s: string, j: nat, e: nat)
    requires j < e <= |s| && IsUrl(s[j..e])
    ensures UrlLenAt(s, j) > 0
  {
    var u := s[j..e];
    var k := if MatchesAtCI(u, HttpsScheme, 0) && |u| > |HttpsScheme| then |HttpsScheme| else |HttpScheme|;
    if k == |HttpsScheme| {
      SliceMatchesAt(s, HttpsScheme, j, e);
    } else {
      SliceMatchesAt(s, HttpScheme, j, e);
    }
    assert u[k] == s[j + k];
    assert SchemeAt(s, j) > 0;
    assert IsUrlChar(s[j + SchemeAt(s, j)]);
  }

  /** Every URL in the text starts a match of the URL pattern. */
  lemma UrlLenStarts(raw: string)
    ensures forall j, e :: 0 <= j < e <= |raw| && IsUrl(raw[j..e]) ==> UrlLen(raw)(j) > 0
  {
    forall j, e | 0 <= j < e <= |raw| && IsUrl(raw[j..e]) ensures UrlLen(raw)(j) > 0 {
      UrlStartsMatch(raw, j, e);
    }
  }

  /** Some stretch of `raw` is a URL. */
  predicate HasUrl(raw: string) {
    exists i, e :: 0 <= i < e <= |raw| && IsUrl(raw[i..e])
  }

  /** `url_pattern.findall(raw)`: every entry is a whole URL. */
  function FindUrls(raw: string): (r: seq<string>)
    ensures forall k :: 0 <= k < |r| ==> IsUrl(r[k])
  {
    UrlLenIsMatch(raw);
    UrlLenStarts(raw);
    FindAllOf(raw, UrlLen(raw), IsUrl);
    FindAll(raw, 0, UrlLen(raw))
  }

  /** `findall` finds nothing exactly when no URL occurs anywhere in the
      text. */
  lemma FindUrlsEmpty(raw: string)
    ensures FindUrls(raw) == [] <==> !HasUrl(raw)
  {
    UrlLenIsMatch(raw);
    UrlLenStarts(raw);
    FindAllOf(raw, UrlLen(raw), IsUrl);
  }

  /** Every occurrence of `P` starts a match, so each lies inside one of
      the matches `findall` takes. */
  lemma FindAllCovers(raw: string, len: MatchLen, P: string -> bool)
    requires FitsIn(len, |raw|)
    requires forall j, e :: 0 <= j < e <= |raw| && P(raw[j..e]) ==> len(j) > 0
    ensures forall j, e :: 0 <= j < e <= |raw| && P(raw[j..e]) ==>
      InsideMatch(MatchOffsets(raw, 0, len), len, j)
  {
    forall j, e | 0 <= j < e <= |raw| && P(raw[j..e])
      ensures InsideMatch(MatchOffsets(raw, 0, len), len, j)
    {
      OffsetsCover(raw, 0, len, j);
    }
  }

  /** The offsets at which `findall` takes the URLs of `raw`. */
  function UrlOffsets(raw: string): (o: seq<nat>)
    ensures forall k :: 0 <= k < |o| ==> o[k] < |raw| && UrlLenAt(raw, o[k]) > 0
  {
    MatchOffsets(raw, 0, UrlLen(raw))
  }

  /** Entry `k` of the URLs found is the whole match at the `k`-th
      offset. */
  lemma FindUrlsEntries(raw: string)
    ensures var o := UrlOffsets(raw); var u := FindUrls(raw); var len := UrlLen(raw);
      && |o| == |u|
      && forall k :: 0 <= k < |u| ==>
           u[k] == raw[o[k]..o[k] + len(o[k])]
  {
    FindAllEntries(raw, 0, UrlLen(raw));
  }

  /** Each URL found is the longest match at its offset: no URL character
      follows it. */
  lemma FindUrlsMaximal(raw: string)
    ensures var o := UrlOffsets(raw); var len := UrlLen(raw);
      forall k :: 0 <= k < |o| ==> RunStops(raw, o[k] + len(o[k]))
  {
    UrlLenStops(raw);
  }

  /** The URLs are taken left to right and do not overlap. */
  lemma FindUrlsApart(raw: string)
    ensures Apart(UrlOffsets(raw), UrlLen(raw))
  {
    OffsetsApart(raw, 0, UrlLen(raw));
  }

  /** No URL is skipped: every URL in the text starts inside one of the
      URLs found. */
  lemma FindUrlsCover(raw: string)
    ensures forall j, e :: 0 <= j < e <= |raw| && IsUrl(raw[j..e]) ==>
      InsideMatch(UrlOffsets(raw), UrlLen(raw), j)
  {
    UrlLenStarts(raw);
    FindAllCovers(raw, UrlLen(raw), IsUrl);
  }

  /** `url.split("/")[2]` exists. */
  predicate HasHost(url: string) {
    |Split(url, '/')| >= 3
  }

  /** `url.split("/")[2]` */
  function Host(url: string): string
    requires HasHost(url)
  {
    Split(url, '/')[2]
  }

  /** Every URL the pattern matches has a third `/`-separated segment, so
      the indexing never fails, and that segment is the part after the
      scheme up to the next `/`. */
  lemma UrlHasHost(u: string)
    requires IsUrl(u)
    ensures HasHost(u)
    ensures var k := if MatchesAtCI(u, HttpsScheme, 0) then |HttpsScheme| else |HttpScheme|;
      Host(u) == TakeUntil(u[k..], '/')
  {
    var k := if MatchesAtCI(u, HttpsScheme, 0) then |HttpsScheme| else |HttpScheme|;
    var scheme := u[..k - 2];
    if k == |HttpsScheme| {
      assert FoldsTo(u[0 + 6], HttpsScheme[6]) && FoldsTo(u[0 + 7], HttpsScheme[7]);
    } else {
      assert FoldsTo(u[0 + 5], HttpScheme[5]) && FoldsTo(u[0 + 6], HttpScheme[6]);
    }
    assert forall m :: 0 <= m < k - 2 ==> u[m] != '/' by {
      forall m | 0 <= m < k - 2 ensures u[m] != '/' {
        if k == |HttpsScheme| {
          assert FoldsTo(u[0 + m], HttpsScheme[m]);
        } else {
          assert FoldsTo(u[0 + m], HttpScheme[m]);
        }
      }
    }
    assert u == scheme + ['/'] + ([] + ['/'] + u[k..]);
    SplitAtFirst(scheme, [] + ['/'] + u[k..], '/');
    SplitAtFirst([], u[k..], '/');
    SplitHead(u[k..], '/');
  }

  /** `any(td in domain for td in TOP_DOMAINS)`: some preferred domain
      occurs somewhere inside the host. */
  predicate IsPreferred(host: string, domains: set<string>) {
    exists td :: td in domains && Contains(host, td)
  }

  /** A host that ends with a preferred domain is preferred. */
  lemma SuffixIsPreferred(host: string, td: string, domains: set<string>)
    requires td in domains && EndsWith(host, td)
    ensures IsPreferred(host, domains)
  {
    var i := |host| - |td|;
    assert StartsWith(host[i..], td);
  }

  /** The test is not a suffix test: a host that merely contains a
      preferred domain passes too. */
  lemma SubstringNotSuffix()
    ensures IsPreferred("arxiv.org.example.com", {"arxiv.org"})
    ensures !EndsWith("arxiv.org.example.com", "arxiv.org")
  {
    var host := "arxiv.org.example.com";
    assert StartsWith(host[0..], "arxiv.org");
    assert host[|host| - 9..] == "xample.com"[1..];
  }

  predicate AllHaveHosts(urls: seq<string>) {
    forall k :: 0 <= k < |urls| ==> HasHost(urls[k])
  }

  /** The preferred count over the URLs, in match order. */
  function CountPreferred(urls: seq<string>, domains: set<string>): (n: nat)
    requires AllHaveHosts(urls)
    ensures n <= |urls|
  {
    if urls == [] then 0
    else
      var last := urls[|urls| - 1];
      CountPreferred(urls[..|urls| - 1], domains) + if IsPreferred(Host(last), domains) then 1 else 0
  }

  /** Position `k` of `urls` holds a URL whose host is preferred. */
  predicate PreferredAt(urls: seq<string>, k: int, domains: set<string>) {
    0 <= k < |urls| && HasHost(urls[k]) && IsPreferred(Host(urls[k]), domains)
  }

  /** The preferred positions of `urls` are those of all but its last
      entry, and the last one when it is preferred. */
  lemma PreferredPositionsStep(urls: seq<string>, domains: set<string>)
    requires urls != []
    ensures var n := |urls| - 1;
      |set k | 0 <= k < n + 1 && PreferredAt(urls, k, domains)|
        == |set k | 0 <= k < n && PreferredAt(urls, k, domains)| + if PreferredAt(urls, n, domains) then 1 else 0
  {
    var n := |urls| - 1;
    var P := k => PreferredAt(urls, k, domains);
    CountStep(n, P);
    assert (set k | 0 <= k < n + 1 && P(k)) == (set k | 0 <= k < n + 1 && PreferredAt(urls, k, domains));
    assert (set k | 0 <= k < n && P(k)) == (set k | 0 <= k < n && PreferredAt(urls, k, domains));
  }

  /** Counting the positions below `n + 1` that satisfy `P`. */
  lemma CountStep(n: nat, P: int -> bool)
    ensures |set k | 0 <= k < n + 1 && P(k)| == |set k | 0 <= k < n && P(k)| + if P(n) then 1 else 0
  {
    var before := set k | 0 <= k < n && P(k);
    var after := set k | 0 <= k < n + 1 && P(k);
    if P(n) {
      assert after == before + {n};
    } else {
      assert after == before;
    }
  }

  /** The preferred count is the number of positions holding a preferred
      URL. */
  lemma {:induction false} CountPreferredIsCardinality(urls: seq<string>, domains: set<string>)
    requires AllHaveHosts(urls)
    ensures CountPreferred(urls, domains) == |set k | 0 <= k < |urls| && PreferredAt(urls, k, domains)|
  {
    if urls != [] {
      var n := |urls| - 1;
      var front := urls[..n];
      CountPreferredIsCardinality(front, domains);
      assert (set k | 0 <= k < n && PreferredAt(front, k, domains))
          == (set k | 0 <= k < n && PreferredAt(urls, k, domains)) by {
        assert forall k :: 0 <= k < n ==> front[k] == urls[k];
      }
      PreferredPositionsStep(urls, domains);
      assert (set k | 0 <= k < |urls| && PreferredAt(urls, k, domains))
          == (set k | 0 <= k < n + 1 && PreferredAt(urls, k, domains));
    }
  }

  /** `f"- {url} → {label}"` */
  function DetailLine(url: string, preferred: bool): string {
    "- " + url + " → " + (if preferred then "✅ PREFERRED" else "❌ NOT PREFERRED")
  }

  /** The details list: one line per URL, in match order, labelled by the
      preferred test of that URL's host. */
  function DetailLines(urls: seq<string>, domains: set<string>): (d: seq<string>)
    requires AllHaveHosts(urls)
    ensures |d| == |urls|
    ensures forall k :: 0 <= k < |urls| ==> d[k] == DetailLine(urls[k], IsPreferred(Host(urls[k]), domains))
  {
    if urls == [] then []
    else
      var last := urls[|urls| - 1];
      DetailLines(urls[..|urls| - 1], domains) + [DetailLine(last, IsPreferred(Host(last), domains))]
  }

  /** `preferred_count / total if total > 0 else 0.0` */
  function Ratio(count: nat, total: nat): real {
    if total > 0 then count as real / total as real else 0.0
  }

  /** f-string percent formatting (`:.2%`, `:.0%`) of a value with the
      given number of decimals. */
  type PercentFormat = (real, nat) -> string

  const NoUrlReport :=
    "### Evaluation — Tavily Preferred Domains\nNo URLs detected in the provided text. \nPlease include links in your research results.\n"

  /** The status word of the report. */
  function StatusLabel(flag: bool): string {
    if flag then "✅ PASS" else "❌ FAIL"
  }

  /** The first nine lines of the report, before the details: a blank
      line, the title, the two counts, the two percentages, the status, a
      blank line and the details heading. */
  function ReportHead(total: nat, count: nat, ratio: real, minRatio: real, flag: bool,
                      percent: PercentFormat): seq<string> {
    ["", "### Evaluation — Tavily Preferred Domains",
     "- Total results: " + NatStr(total),
     "- Preferred results: " + NatStr(count),
     "- Ratio: " + percent(ratio, 2),
     "- Threshold: " + percent(minRatio, 0),
     "- Status: " + StatusLabel(flag),
     "", "**Details:**"]
  }

  /** The Markdown report of a run with URLs. The triple-quoted f-string is
      its head lines, then `"\n".join(details)`, then the final empty line,
      each separated from the next by a line break. */
  function ReportText(total: nat, count: nat, ratio: real, minRatio: real, flag: bool,
                      details: seq<string>, percent: PercentFormat): string {
    Join("\n", ReportHead(total, count, ratio, minRatio, flag, percent) + [Join("\n", details)] + [""])
  }

  /** Read line by line, the report is the head (its seventh line states
      PASS exactly when the flag is set) and then the detail lines in
      order, provided no formatted percentage and no detail spans two
      lines. */
  lemma ReportReadsAsLines(total: nat, count: nat, ratio: real, minRatio: real, flag: bool,
                           details: seq<string>, percent: PercentFormat)
    requires details != []
    requires forall k :: 0 <= k < |details| ==> '\n' !in details[k]
    requires '\n' !in percent(ratio, 2) && '\n' !in percent(minRatio, 0)
    ensures var lines := Split(ReportText(total, count, ratio, minRatio, flag, details, percent), '\n');
      && lines == ReportHead(total, count, ratio, minRatio, flag, percent) + details + [""]
      && lines[6] == "- Status: " + StatusLabel(flag)
      && lines[9..9 + |details|] == details
  {
    var sep := "\n";
    var head := ReportHead(total, count, ratio, minRatio, flag, percent);
    var lines := head + details + [""];
    JoinAppend(sep, head, [Join(sep, details)] + [""]);
    assert head + [Join(sep, details)] + [""] == head + ([Join(sep, details)] + [""]);
    JoinCons(sep, Join(sep, details), [""]);
    JoinAppend(sep, details, [""]);
    JoinAppend(sep, head, details + [""]);
    assert lines == head + (details + [""]);
    HeadIsOneLinePerEntry(total, count, ratio, minRatio, flag, percent);
    forall k | 0 <= k < |lines| ensures '\n' !in lines[k] {
      if k < 9 {
        assert lines[k] == head[k];
      } else if k < 9 + |details| {
        assert lines[k] == details[k - 9];
      }
    }
    JoinSplit(lines, '\n');
    assert lines[9..9 + |details|] == details;
  }

  /** The fixed texts of the report head hold no line break. */
  lemma TitleHasNoBreak()
    ensures '\n' !in "### Evaluation — Tavily Preferred Domains"
  {
  }

  lemma CountLabelsHaveNoBreak()
    ensures '\n' !in "- Total results: " && '\n' !in "- Preferred results: "
  {
  }

  lemma RatioLabelsHaveNoBreak()
    ensures '\n' !in "- Ratio: " && '\n' !in "- Threshold: " && '\n' !in "- Status: "
  {
  }

  lemma StatusTextsHaveNoBreak()
    ensures '\n' !in "✅ PASS" && '\n' !in "❌ FAIL" && '\n' !in "**Details:**"
  {
  }

  /** The report's head lines hold no line break of their own. */
  lemma HeadIsOneLinePerEntry(total: nat, count: nat, ratio: real, minRatio: real, flag: bool,
                              percent: PercentFormat)
    requires '\n' !in percent(ratio, 2) && '\n' !in percent(minRatio, 0)
    ensures forall k :: 0 <= k < 9 ==> '\n' !in ReportHead(total, count, ratio, minRatio, flag, percent)[k]
  {
    TitleHasNoBreak();
    CountLabelsHaveNoBreak();
    RatioLabelsHaveNoBreak();
    StatusTextsHaveNoBreak();
    assert '\n' !in NatStr(total) && '\n' !in NatStr(count);
    assert '\n' !in StatusLabel(flag);
  }

  /** `evaluate_tavily_results`: the pass flag and the Markdown report.
      Without URLs the text fails with the fixed notice; otherwise the flag
      is whether the preferred share reaches `minRatio` (0.4 unless the
      caller gives one), and the report
      gives the counts, the status and one detail line per URL. */
  method EvaluateTavilyResults(topDomains: set<string>, raw: string, percent: PercentFormat, minRatio: real := 0.4)
    returns (flag: bool, report: string)
    ensures var urls := FindUrls(raw);
      && (urls == [] ==> !flag && report == NoUrlReport)
      && (urls != [] ==>
            AllHaveHosts(urls)
            && var count := CountPreferred(urls, topDomains);
            && flag == (Ratio(count, |urls|) >= minRatio)
            && report == ReportText(|urls|, count, Ratio(count, |urls|), minRatio, flag,
                                    DetailLines(urls, topDomains), percent))
  {
    var urls := FindUrls(raw);
    if urls == [] {
      return false, NoUrlReport;
    }
    forall k | 0 <= k < |urls| ensures HasHost(urls[k]) {
      UrlHasHost(urls[k]);
    }

    var total := |urls|;
    var preferredCount := 0;
    var details: seq<string> := [];
    var i := 0;
    while i < |urls|
      invariant 0 <= i <= |urls|
      invariant preferredCount == CountPreferred(urls[..i], topDomains)
      invariant details == DetailLines(urls[..i], topDomains)
    {
      var url := urls[i];
      var domain := Host(url);
      var preferred := IsPreferred(domain, topDomains);
      if preferred {
        preferredCount := preferredCount + 1;
      }
      details := details + [DetailLine(url, preferred)];
      assert urls[..i + 1][..i] == urls[..i];
      i := i + 1;
    }
    assert urls[..i] == urls;

    var ratio := Ratio(preferredCount, total);
    flag := ratio >= minRatio;
    report := ReportText(total, preferredCount, ratio, minRatio, flag, details, percent);
  }

  /** A matched URL holds no line break. */
  lemma UrlIsOneLine(u: string)
    requires IsUrl(u)
    ensures '\n' !in u
  {
    var k := if MatchesAtCI(u, HttpsScheme, 0) then |HttpsScheme| else |HttpScheme|;
    forall m | 0 <= m < |u| ensures u[m] != '\n' {
      if m < k && k == |HttpsScheme| {
        assert FoldsTo(u[0 + m], HttpsScheme[m]);
      } else if m < k {
        assert FoldsTo(u[0 + m], HttpScheme[m]);
      }
    }
  }

  /** Every matched URL has a host, and its detail line is a single line. */
  lemma DetailsAreOneLine(urls: seq<string>, domains: set<string>)
    requires forall k :: 0 <= k < |urls| ==> IsUrl(urls[k])
    ensures AllHaveHosts(urls)
    ensures forall k :: 0 <= k < |urls| ==> '\n' !in DetailLines(urls, domains)[k]
  {
    forall k | 0 <= k < |urls| ensures HasHost(urls[k]) && '\n' !in urls[k] {
      UrlHasHost(urls[k]);
      UrlIsOneLine(urls[k]);
    }
    assert '\n' !in "- " && '\n' !in " → " && '\n' !in "✅ PREFERRED" && '\n' !in "❌ NOT PREFERRED";
  }

  /** For a text with URLs, the report's seventh line states PASS exactly
      when the flag is set, and from the tenth line on it lists one detail
      line per URL, in match order. */
  lemma ReportStatusMatchesFlag(topDomains: set<string>, raw: string, minRatio: real, percent: PercentFormat)
    requires FindUrls(raw) != []
    requires forall x: real, d: nat :: '\n' !in percent(x, d)
    ensures var urls := FindUrls(raw);
      AllHaveHosts(urls)
      && var count := CountPreferred(urls, topDomains);
      && var flag := Ratio(count, |urls|) >= minRatio;
      && var details := DetailLines(urls, topDomains);
      && var lines := Split(ReportText(|urls|, count, Ratio(count, |urls|), minRatio, flag, details, percent), '\n');
      && |lines| == 10 + |urls|
      && lines[6] == "- Status: " + StatusLabel(flag)
      && lines[9..9 + |urls|] == details
      && (forall k :: 0 <= k < |urls| ==> lines[9 + k] == DetailLine(urls[k], IsPreferred(Host(urls[k]), topDomains)))
  {
    var urls := FindUrls(raw);
    DetailsAreOneLine(urls, topDomains);
    var count := CountPreferred(urls, topDomains);
    var flag := Ratio(count, |urls|) >= minRatio;
    var details := DetailLines(urls, topDomains);
    ReportReadsAsLines(|urls|, count, Ratio(count, |urls|), minRatio, flag, details, percent);
    var lines := Split(ReportText(|urls|, count, Ratio(count, |urls|), minRatio, flag, details, percent), '\n');
    forall k | 0 <= k < |urls| ensures lines[9 + k] == details[k] {
      assert lines[9..9 + |urls|][k] == lines[9 + k];
    }
  }
}
