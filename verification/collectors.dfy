/** The three image-URL collectors of the scraper (DuckDuckGo, Bing and a
    Google scrape). The network and the regular-expression engine are
    parameters: a collector sees the page text or `Unreachable`, and a
    `findall` function giving each pattern's matches in that text. */
module Collectors {
  import Seqs
  import Text

  datatype Source = DuckDuckGo | Bing | GoogleScrape

  /** The patterns each collector runs, named after the attribute they
      capture: `img_src`, `src`, `data-src` (DuckDuckGo, case-insensitive),
      `"murl"` and `src` on `bing.net` (Bing), `"ou"` (Google). */
  datatype Pattern = ImgSrc | Src | DataSrc | Murl | BingNetSrc | GoogleOu

  /** The response to the search request: an exception from the request, or
      the page text. */
  datatype Response = Unreachable | Fetched(text: string)

  function Patterns(src: Source): (ps: seq<Pattern>)
    ensures 1 <= |ps| <= 3
  {
    match src
    case DuckDuckGo => [ImgSrc, Src, DataSrc]
    case Bing => [Murl, BingNetSrc]
    case GoogleScrape => [GoogleOu]
  }

  /** `re.findall` for each of the source's patterns, in order. */
  function MatchLists(src: Source, text: string, findall: (Pattern, string) -> seq<string>): (lists: seq<seq<string>>)
    ensures |lists| == |Patterns(src)|
    ensures forall i :: 0 <= i < |lists| ==> lists[i] == findall(Patterns(src)[i], text)
  {
    var ps := Patterns(src);
    seq(|ps|, i requires 0 <= i < |ps| => findall(ps[i], text))
  }

  predicate IsHttp(u: string) {
    Text.StartsWith(u, "http")
  }

  /** A protocol-relative URL (`//host/...`) gets `https:` in front. */
  function Absolutize(m: string): (u: string)
    ensures Text.StartsWith(m, "//") ==> u == "https:" + m
    ensures !Text.StartsWith(m, "//") ==> u == m
    ensures IsHttp(u) <==> IsHttp(m) || Text.StartsWith(m, "//")
  {
    if Text.StartsWith(m, "//") then "https:" + m else m
  }

  /** Bing's `match.replace('\\', '')`: the JSON escaping backslashes
      dropped, everything else kept in order (`Seqs.RemoveAll`). */
  function Unescape(m: string): (r: string)
    ensures '\\' !in r
    ensures '\\' !in m ==> r == m
  {
    Seqs.RemoveAll(m, '\\')
  }

  /** The candidate URL a match stands for: DuckDuckGo absolutizes, Bing first
      strips every backslash (JSON escaping) and then absolutizes, Google
      takes the match as it is. */
  function Normalize(src: Source, m: string): (u: string)
    ensures src == GoogleScrape ==> u == m
    ensures src == Bing ==> '\\' !in u && u == Absolutize(Unescape(m))
    ensures src == DuckDuckGo ==> u == Absolutize(m)
  {
    match src
    case GoogleScrape => m
    case DuckDuckGo => Absolutize(m)
    case Bing => Absolutize(Unescape(m))
  }

  /** What every collector returns: `http` URLs without duplicates. */
  predicate Admissible(urls: seq<string>) {
    Seqs.NoDup(urls) && forall i :: 0 <= i < |urls| ==> IsHttp(urls[i])
  }

  /** The URLs the matches `ms` normalize to. */
  function Origins(src: Source, ms: seq<string>): set<string> {
    set j | 0 <= j < |ms| :: Normalize(src, ms[j])
  }

  lemma OriginsAppend(src: Source, a: seq<string>, b: seq<string>)
    ensures Origins(src, a + b) == Origins(src, a) + Origins(src, b)
  {
    var ab := a + b;
    forall u | u in Origins(src, ab) ensures u in Origins(src, a) + Origins(src, b) {
      var j :| 0 <= j < |ab| && u == Normalize(src, ab[j]);
      if j >= |a| {
        assert ab[j] == b[j - |a|];
      }
    }
    forall u | u in Origins(src, b) ensures u in Origins(src, ab) {
      var j :| 0 <= j < |b| && u == Normalize(src, b[j]);
      assert ab[j + |a|] == b[j];
    }
    forall u | u in Origins(src, a) ensures u in Origins(src, ab) {
      var j :| 0 <= j < |a| && u == Normalize(src, a[j]);
      assert ab[j] == a[j];
    }
  }

  /** `if url.startswith('http') and url not in urls: urls.append(url)`. */
  function Admit(src: Source, urls: seq<string>, m: string): (r: seq<string>)
    ensures r == urls || r == urls + [Normalize(src, m)]
    ensures r != urls <==> IsHttp(Normalize(src, m)) && Normalize(src, m) !in urls
    ensures Admissible(urls) ==> Admissible(r)
  {
    var u := Normalize(src, m);
    if IsHttp(u) && u !in urls then urls + [u] else urls
  }

  /** `r` extends `urls` with URLs that are normalizations of matches in `ms`. */
  predicate Extends(src: Source, urls: seq<string>, r: seq<string>, ms: seq<string>) {
    |urls| <= |r| && r[..|urls|] == urls && forall i :: |urls| <= i < |r| ==> r[i] in Origins(src, ms)
  }

  lemma AdmitExtends(src: Source, urls: seq<string>, m: string)
    ensures Extends(src, urls, Admit(src, urls, m), [m])
  {
    assert Normalize(src, [m][0]) in Origins(src, [m]);
  }

  /** Extending twice extends by both match lists. */
  lemma ExtendsTrans(src: Source, a: seq<string>, b: seq<string>, c: seq<string>, ms1: seq<string>, ms2: seq<string>)
    requires Extends(src, a, b, ms1) && Extends(src, b, c, ms2)
    ensures Extends(src, a, c, ms1 + ms2)
  {
    OriginsAppend(src, ms1, ms2);
    assert c[..|a|] == b[..|a|];
    forall i | |a| <= i < |c| ensures c[i] in Origins(src, ms1 + ms2) {
      if i < |b| {
        assert c[i] == c[..|b|][i];
      }
    }
  }

  /** Admitting every match in turn, without any cap: the reference the
      capped loops are compared with. */
  function AdmitAll(src: Source, urls: seq<string>, ms: seq<string>): (r: seq<string>)
    ensures |r| <= |urls| + |ms|
    ensures Extends(src, urls, r, ms)
    ensures Admissible(urls) ==> Admissible(r)
    ensures forall j :: 0 <= j < |ms| && IsHttp(Normalize(src, ms[j])) ==> Normalize(src, ms[j]) in r
    decreases |ms|
  {
    if ms == [] then urls
    else
      var next := Admit(src, urls, ms[0]);
      var r := AdmitAll(src, next, ms[1..]);
      AdmitExtends(src, urls, ms[0]);
      ExtendsTrans(src, urls, next, r, [ms[0]], ms[1..]);
      assert [ms[0]] + ms[1..] == ms;
      PrefixMembers(next, r);
      assert forall j :: 1 <= j < |ms| ==> ms[j] == ms[1..][j - 1];
      r
  }

  /** Everything in a prefix of `r` is in `r`. */
  lemma PrefixMembers(a: seq<string>, r: seq<string>)
    requires |a| <= |r| && r[..|a|] == a
    ensures forall u :: u in a ==> u in r
  {
    forall u | u in a ensures u in r {
      var i :| 0 <= i < |a| && a[i] == u;
      assert r[i] == u;
    }
  }

  /** `AdmitAll` over a concatenation is `AdmitAll` over each part in turn. */
  lemma {:induction false} AdmitAllAppend(src: Source, urls: seq<string>, ms1: seq<string>, ms2: seq<string>)
    ensures AdmitAll(src, urls, ms1 + ms2) == AdmitAll(src, AdmitAll(src, urls, ms1), ms2)
    decreases |ms1|
  {
    if ms1 != [] {
      assert (ms1 + ms2)[0] == ms1[0];
      assert (ms1 + ms2)[1..] == ms1[1..] + ms2;
      AdmitAllAppend(src, Admit(src, urls, ms1[0]), ms1[1..], ms2);
    } else {
      assert ms1 + ms2 == ms2;
    }
  }

  /** One pattern's inner loop: admit each match and `break` as soon as the
      list holds `max` URLs. The check follows every match, admitted or not. */
  function ScanMatches(src: Source, urls: seq<string>, ms: seq<string>, max: int): (r: seq<string>)
    ensures Extends(src, urls, r, ms)
    ensures Admissible(urls) ==> Admissible(r)
    decreases |ms|
  {
    if ms == [] then urls
    else
      var next := Admit(src, urls, ms[0]);
      if |next| >= max then
        AdmitThenExtends(src, urls, ms, next);
        next
      else
        var r := ScanMatches(src, next, ms[1..], max);
        AdmitThenExtends(src, urls, ms, r);
        r
  }

  /** Whatever extends the admission of the first match by the rest extends
      `urls` by all of `ms`. */
  lemma AdmitThenExtends(src: Source, urls: seq<string>, ms: seq<string>, r: seq<string>)
    requires ms != []
    requires Extends(src, Admit(src, urls, ms[0]), r, ms[1..])
    ensures Extends(src, urls, r, ms)
  {
    var next := Admit(src, urls, ms[0]);
    AdmitExtends(src, urls, ms[0]);
    assert [ms[0]] + ms[1..] == ms;
    ExtendsTrans(src, urls, next, r, [ms[0]], ms[1..]);
  }

  /** The outer loop over the patterns. The `break` leaves only the inner
      loop, so each later pattern can still admit one more URL. */
  function ScanPatterns(src: Source, urls: seq<string>, lists: seq<seq<string>>, max: int): (r: seq<string>)
    ensures Extends(src, urls, r, Seqs.Flatten(lists))
    ensures Admissible(urls) ==> Admissible(r)
    decreases |lists|
  {
    if lists == [] then urls
    else
      var next := ScanMatches(src, urls, lists[0], max);
      var r := ScanPatterns(src, next, lists[1..], max);
      ExtendsTrans(src, urls, next, r, lists[0], Seqs.Flatten(lists[1..]));
      r
  }

  /** A prefix of an admissible list is admissible and made of its elements. */
  lemma AdmissiblePrefix(a: seq<string>, max: int)
    requires Admissible(a)
    ensures Admissible(Seqs.PyPrefix(a, max))
    ensures forall i :: 0 <= i < |Seqs.PyPrefix(a, max)| ==> Seqs.PyPrefix(a, max)[i] == a[i]
  {
    var r := Seqs.PyPrefix(a, max);
    assert forall i :: 0 <= i < |r| ==> r[i] == a[i];
  }

  /** The Google collector's loop: admit the first `max` matches, then cut
      to `max`. */
  function ScanFirst(src: Source, ms: seq<string>, max: int): (r: seq<string>)
    ensures Admissible(r)
    ensures max >= 0 ==> |r| <= max
    ensures forall i :: 0 <= i < |r| ==> r[i] in Origins(src, Seqs.PyPrefix(ms, max))
    ensures forall i :: 0 <= i < |r| ==> r[i] in Origins(src, ms)
    ensures max >= 0 ==> r == AdmitAll(src, [], Seqs.PyPrefix(ms, max))
  {
    ScanFirstSound(src, ms, max);
    if max >= 0 then
      ScanFirstCut(src, ms, max);
      Seqs.PyPrefix(AdmitAll(src, [], Seqs.PyPrefix(ms, max)), max)
    else
      Seqs.PyPrefix(AdmitAll(src, [], Seqs.PyPrefix(ms, max)), max)
  }

  /** With `max >= 0`, the admitted prefix is already at most `max` long, so
      the final cut changes nothing. */
  lemma ScanFirstCut(src: Source, ms: seq<string>, max: int)
    requires max >= 0
    ensures var a := AdmitAll(src, [], Seqs.PyPrefix(ms, max));
      |a| <= max && Seqs.PyPrefix(a, max) == a
  {
  }

  /** Everything the Google loop keeps is admissible and comes from the
      first `max` matches. */
  lemma ScanFirstSound(src: Source, ms: seq<string>, max: int)
    ensures var r := Seqs.PyPrefix(AdmitAll(src, [], Seqs.PyPrefix(ms, max)), max);
      Admissible(r)
      && (forall i :: 0 <= i < |r| ==> r[i] in Origins(src, Seqs.PyPrefix(ms, max)))
      && forall i :: 0 <= i < |r| ==> r[i] in Origins(src, ms)
  {
    var scanned := Seqs.PyPrefix(ms, max);
    var a := AdmitAll(src, [], scanned);
    AdmittedWithin(src, scanned);
    OriginsOfPrefix(src, ms, scanned);
    AdmissiblePrefix(a, max);
    PrefixWithin(a, max, Origins(src, scanned), Origins(src, ms));
  }

  /** Admitting from nothing keeps only normalizations of the matches. */
  lemma AdmittedWithin(src: Source, ms: seq<string>)
    ensures var a := AdmitAll(src, [], ms);
      Admissible(a) && forall i :: 0 <= i < |a| ==> a[i] in Origins(src, ms)
  {
  }

  /** The normalizations of a prefix of the matches are among those of all. */
  lemma OriginsOfPrefix(src: Source, ms: seq<string>, p: seq<string>)
    requires |p| <= |ms| && p == ms[..|p|]
    ensures Origins(src, p) <= Origins(src, ms)
  {
    OriginsAppend(src, p, ms[|p|..]);
    assert p + ms[|p|..] == ms;
  }

  /** A prefix of a sequence drawn from `inner`, itself within `outer`, is
      drawn from both. */
  lemma PrefixWithin<T>(a: seq<T>, max: int, inner: set<T>, outer: set<T>)
    requires forall i :: 0 <= i < |a| ==> a[i] in inner
    requires inner <= outer
    ensures var r := Seqs.PyPrefix(a, max);
      forall i :: 0 <= i < |r| ==> r[i] in inner && r[i] in outer
  {
  }

  /** What a collector returns for the match lists of its patterns. */
  function CollectMatches(src: Source, lists: seq<seq<string>>, max: int): (r: seq<string>)
    requires src == GoogleScrape ==> |lists| == 1
    ensures Admissible(r)
    ensures max >= 0 ==> |r| <= max
    ensures forall i :: 0 <= i < |r| ==> r[i] in Origins(src, Seqs.Flatten(lists))
    ensures src != GoogleScrape && max >= 0 ==> r == Seqs.PyPrefix(AdmitAll(src, [], Seqs.Flatten(lists)), max)
    ensures src == GoogleScrape && max >= 0 ==> r == AdmitAll(src, [], Seqs.PyPrefix(lists[0], max))
    ensures src == GoogleScrape ==> forall i :: 0 <= i < |r| ==> r[i] in Origins(src, Seqs.PyPrefix(lists[0], max))
  {
    if src == GoogleScrape then
      Seqs.FlattenSingleton(lists);
      ScanFirst(src, lists[0], max)
    else
      var a := ScanPatterns(src, [], lists, max);
      AdmissiblePrefix(a, max);
      CollectIsCappedReference(src, lists, max);
      Seqs.PyPrefix(a, max)
  }

  /** `search_duckduckgo`, `search_bing_images` and `search_google_simple`
      with `max_results = max`. A request that raises gives `[]`. Google
      scans only the first `max` matches and has no `break`. Every collector
      returns at most `max` admissible URLs, each the normalization of a
      match. */
  function Collect(src: Source, response: Response, findall: (Pattern, string) -> seq<string>, max: int): (r: seq<string>)
    ensures Admissible(r)
    ensures max >= 0 ==> |r| <= max
    ensures response.Unreachable? ==> r == []
    ensures response.Fetched? ==> forall i :: 0 <= i < |r| ==>
      r[i] in Origins(src, Seqs.Flatten(MatchLists(src, response.text, findall)))
    ensures response.Fetched? && src != GoogleScrape && max >= 0 ==>
      r == Seqs.PyPrefix(AdmitAll(src, [], Seqs.Flatten(MatchLists(src, response.text, findall))), max)
    ensures response.Fetched? && src == GoogleScrape && max >= 0 ==>
      r == AdmitAll(src, [], Seqs.PyPrefix(MatchLists(src, response.text, findall)[0], max))
    ensures response.Fetched? && src == GoogleScrape ==> forall i :: 0 <= i < |r| ==>
      r[i] in Origins(src, Seqs.PyPrefix(MatchLists(src, response.text, findall)[0], max))
  {
    match response
    case Unreachable => []
    case Fetched(text) => CollectMatches(src, MatchLists(src, text, findall), max)
  }

  // ---------------------------------------------------------------------------
  // The early `break` does not change the capped result
  // ---------------------------------------------------------------------------

  /** Two lists agree up to `max` when they are equal or both have at least
      `max` elements and the same first `max`. */
  predicate Agree(s: seq<string>, a: seq<string>, max: int) {
    s == a || (0 <= max <= |s| && max <= |a| && s[..max] == a[..max])
  }

  lemma AgreeAdmit(src: Source, s: seq<string>, a: seq<string>, m: string, max: int)
    requires Agree(s, a, max)
    ensures Agree(Admit(src, s, m), Admit(src, a, m), max)
  {
    if s != a {
      var s', a' := Admit(src, s, m), Admit(src, a, m);
      assert s'[..max] == s[..max];
      assert a'[..max] == a[..max];
    }
  }

  /** Once the first `max` agree, any extension of the reference still agrees. */
  lemma AgreeExtend(s: seq<string>, a: seq<string>, b: seq<string>, max: int)
    requires 0 <= max <= |s| && Agree(s, a, max)
    requires |a| <= |b| && b[..|a|] == a
    ensures Agree(s, b, max)
  {
    assert b[..max] == a[..max];
  }

  lemma {:induction false} ScanMatchesAgree(src: Source, s: seq<string>, a: seq<string>, ms: seq<string>, max: int)
    requires max >= 0 && Agree(s, a, max)
    ensures Agree(ScanMatches(src, s, ms, max), AdmitAll(src, a, ms), max)
    decreases |ms|
  {
    if ms != [] {
      var s', a' := Admit(src, s, ms[0]), Admit(src, a, ms[0]);
      AgreeAdmit(src, s, a, ms[0], max);
      if |s'| >= max {
        AgreeExtend(s', a', AdmitAll(src, a', ms[1..]), max);
      } else {
        ScanMatchesAgree(src, s', a', ms[1..], max);
      }
    }
  }

  lemma {:induction false} ScanPatternsAgree(src: Source, s: seq<string>, a: seq<string>, lists: seq<seq<string>>, max: int)
    requires max >= 0 && Agree(s, a, max)
    ensures Agree(ScanPatterns(src, s, lists, max), AdmitAll(src, a, Seqs.Flatten(lists)), max)
    decreases |lists|
  {
    if lists != [] {
      ScanMatchesAgree(src, s, a, lists[0], max);
      ScanPatternsAgree(src, ScanMatches(src, s, lists[0], max), AdmitAll(src, a, lists[0]), lists[1..], max);
      AdmitAllAppend(src, a, lists[0], Seqs.Flatten(lists[1..]));
    }
  }

  lemma AgreePrefix(s: seq<string>, a: seq<string>, max: int)
    requires max >= 0 && Agree(s, a, max)
    ensures Seqs.PyPrefix(s, max) == Seqs.PyPrefix(a, max)
  {
  }

  /** A collector returns the first `max` URLs of admitting every match of
      every pattern in order: stopping the inner loop early, and letting
      later patterns overshoot, never changes what survives the final cap.
      Google, which caps the matches instead, returns all it admits. */
  lemma CollectIsCappedReference(src: Source, lists: seq<seq<string>>, max: int)
    requires src == GoogleScrape ==> |lists| == 1
    ensures src != GoogleScrape && max >= 0 ==>
      Seqs.PyPrefix(ScanPatterns(src, [], lists, max), max) == Seqs.PyPrefix(AdmitAll(src, [], Seqs.Flatten(lists)), max)
    ensures src == GoogleScrape && max >= 0 ==>
      Seqs.PyPrefix(AdmitAll(src, [], Seqs.PyPrefix(lists[0], max)), max) == AdmitAll(src, [], Seqs.PyPrefix(lists[0], max))
    ensures src == GoogleScrape ==> Seqs.Flatten(lists) == lists[0]
  {
    if src != GoogleScrape && max >= 0 {
      ScanPatternsAgree(src, [], [], lists, max);
      AgreePrefix(ScanPatterns(src, [], lists, max), AdmitAll(src, [], Seqs.Flatten(lists)), max);
    }
    if src == GoogleScrape {
      assert lists[1..] == [];
      assert Seqs.Flatten(lists) == lists[0] + [];
    }
  }

  /** The internal list does overshoot: with a cap of one, a second pattern
      still admits its first URL, and only the final slice trims it. */
  lemma OvershootIsTrimmed(a: string, b: string)
    requires IsHttp(a) && IsHttp(b) && a != b
    ensures ScanPatterns(DuckDuckGo, [], [[a], [b]], 1) == [a, b]
    ensures Seqs.PyPrefix(ScanPatterns(DuckDuckGo, [], [[a], [b]], 1), 1) == [a]
  {
    assert Normalize(DuckDuckGo, a) == a by {
      assert a[0] == 'h';
    }
    assert Normalize(DuckDuckGo, b) == b by {
      assert b[0] == 'h';
    }
    assert Admit(DuckDuckGo, [], a) == [a];
    assert Admit(DuckDuckGo, [a], b) == [a, b];
    assert ScanMatches(DuckDuckGo, [], [a], 1) == [a];
    assert ScanMatches(DuckDuckGo, [a], [b], 1) == [a, b];
    var lists := [[a], [b]];
    assert lists[1..] == [[b]];
    assert ScanPatterns(DuckDuckGo, [a, b], [], 1) == [a, b];
    assert ScanPatterns(DuckDuckGo, [a], [[b]], 1) == [a, b];
  }

  /** A protocol-relative match is kept by DuckDuckGo and Bing, as an `https:`
      URL, but dropped by the Google collector, which does not absolutize. */
  lemma ProtocolRelativeOnlyOutsideGoogle(urls: seq<string>, m: string)
    requires Text.StartsWith(m, "//") && '\\' !in m && "https:" + m !in urls
    ensures Admit(DuckDuckGo, urls, m) == urls + ["https:" + m]
    ensures Admit(Bing, urls, m) == urls + ["https:" + m]
    ensures Admit(GoogleScrape, urls, m) == urls
  {
    assert Unescape(m) == m;
    assert Text.StartsWith("https:" + m, "http");
    assert m[0] == '/';
  }
}
