/** `search_images_direct`: issue the queries for a file name in order, ask
    every collector for three URLs per query, stop once enough URLs are
    collected, and keep at most `max` distinct ones. */
module ImageSearch {
  import Seqs
  import Keywords
  import Collectors

  /** What the network and the regular-expression engine answer: the search
      page for a source and a query, and the matches of a pattern in a page. */
  datatype SearchWeb = SearchWeb(
    respond: (Collectors.Source, string) -> Collectors.Response,
    findall: (Collectors.Pattern, string) -> seq<string>)

  /** The collectors, in the order they are asked. */
  const Sources: seq<Collectors.Source> := [Collectors.DuckDuckGo, Collectors.Bing, Collectors.GoogleScrape]

  /** The `max_results` each collector is called with. */
  const PerSource: int := 3

  /** The URLs one query collects: each collector's answer, in order. */
  function Round(web: SearchWeb, q: string): (urls: seq<string>)
    ensures |urls| <= |Sources| * PerSource
    ensures forall i :: 0 <= i < |urls| ==> Collectors.IsHttp(urls[i])
  {
    var a := Collectors.Collect(Collectors.DuckDuckGo, web.respond(Collectors.DuckDuckGo, q), web.findall, PerSource);
    var b := Collectors.Collect(Collectors.Bing, web.respond(Collectors.Bing, q), web.findall, PerSource);
    var c := Collectors.Collect(Collectors.GoogleScrape, web.respond(Collectors.GoogleScrape, q), web.findall, PerSource);
    ConcatHttp(a, b, c);
    a + b + c
  }

  /** Three answers of at most `PerSource` `http` URLs each concatenate to
      at most `|Sources| * PerSource` `http` URLs. */
  lemma ConcatHttp(a: seq<string>, b: seq<string>, c: seq<string>)
    requires |a| <= PerSource && |b| <= PerSource && |c| <= PerSource
    requires AllHttp(a) && AllHttp(b) && AllHttp(c)
    ensures |a + b + c| <= |Sources| * PerSource && AllHttp(a + b + c)
  {
    assert forall i :: 0 <= i < |a + b + c| ==> (a + b + c)[i] in a || (a + b + c)[i] in b || (a + b + c)[i] in c;
  }

  /** The URLs collected by the queries `qs`, one round after another. */
  function Rounds(round: string -> seq<string>, qs: seq<string>): seq<string>
  {
    if qs == [] then [] else round(qs[0]) + Rounds(round, qs[1..])
  }

  /** The queries issued and the URLs collected. */
  datatype Gathered = Gathered(issued: seq<string>, collected: seq<string>)

  /** The query loop from a list `acc` already collected: a round per
      query, and `break` once `acc` holds at least `max` URLs. */
  function Gather(round: string -> seq<string>, qs: seq<string>, acc: seq<string>, max: int): (g: Gathered)
    ensures |g.issued| <= |qs| && g.issued == qs[..|g.issued|]
    ensures qs != [] ==> g.issued != []
    ensures g.collected == acc + Rounds(round, g.issued)
    ensures |g.issued| < |qs| ==> |g.collected| >= max
    decreases |qs|
  {
    if qs == [] then Gathered([], acc)
    else
      var next := acc + round(qs[0]);
      assert Rounds(round, [qs[0]]) == round(qs[0]) by {
        assert [qs[0]][1..] == [];
      }
      if |next| >= max then Gathered([qs[0]], next)
      else
        var g := Gather(round, qs[1..], next, max);
        var issued := [qs[0]] + g.issued;
        assert issued[1..] == g.issued;
        Gathered(issued, g.collected)
  }

  /** Before each query of `issued` but the first, fewer than `max` URLs
      had been collected. */
  predicate NeverFullBefore(round: string -> seq<string>, issued: seq<string>, acc: seq<string>, max: int) {
    forall k :: 0 < k < |issued| ==> |acc + Rounds(round, issued[..k])| < max
  }

  /** The loop never stops early: it issues a query only while fewer than
      `max` URLs are collected. */
  lemma {:induction false} GatherStopsOnlyWhenFull(round: string -> seq<string>, qs: seq<string>, acc: seq<string>, max: int)
    ensures NeverFullBefore(round, Gather(round, qs, acc, max).issued, acc, max)
    decreases |qs|
  {
    if qs != [] {
      var next := acc + round(qs[0]);
      if |next| < max {
        var g := Gather(round, qs[1..], next, max);
        GatherStopsOnlyWhenFull(round, qs[1..], next, max);
        var issued := [qs[0]] + g.issued;
        assert Gather(round, qs, acc, max).issued == issued;
        forall k | 0 < k < |issued| ensures |acc + Rounds(round, issued[..k])| < max {
          var pre := issued[..k];
          assert pre[0] == qs[0];
          assert pre[1..] == g.issued[..k - 1];
          var tail := Rounds(round, g.issued[..k - 1]);
          assert Rounds(round, pre) == round(qs[0]) + tail;
          assert acc + Rounds(round, pre) == next + tail;
          if k == 1 {
            assert tail == [];
          }
        }
      }
    }
  }

  /** The round function the loop runs: `Round` against `web`. */
  function RoundOf(web: SearchWeb): string -> seq<string> {
    q => Round(web, q)
  }

  /** The result of `search_images_direct`. */
  datatype Search = Search(issued: seq<string>, collected: seq<string>, selected: seq<string>)

  /** `search_images_direct(filename, max_results=max)`. The selection
      stands for `list(set(all_urls))[:max]`, whose order Python leaves
      unspecified; only order-free facts are stated about it. */
  function SearchImagesDirect(filename: string, web: SearchWeb, max: int): (s: Search)
    ensures 1 <= |s.issued| <= 2 && s.issued == Keywords.IssuedQueries(filename)[..|s.issued|]
    ensures |s.issued| == 2 <==> |Round(web, s.issued[0])| < max
    ensures s.collected == Rounds(RoundOf(web), s.issued)
    ensures s.selected == Select(s.collected, max)
    ensures max >= 0 ==> |s.selected| <= max
    ensures forall i :: 0 <= i < |s.selected| ==> s.selected[i] in s.collected && Collectors.IsHttp(s.selected[i])
  {
    var qs := Keywords.IssuedQueries(filename);
    var g := Gather(RoundOf(web), qs, [], max);
    GatherTwo(RoundOf(web), qs, max);
    forall q ensures AllHttp(RoundOf(web)(q)) {
      assert RoundOf(web)(q) == Round(web, q);
    }
    RoundsHttp(RoundOf(web), g.issued);
    Search(g.issued, g.collected, Select(g.collected, max))
  }

  /** `list(set(urls))[:max]`, with first occurrences standing for the set's
      unspecified order: distinct URLs of `urls`, as many as there are
      distinct ones up to `max`. */
  function Select(urls: seq<string>, max: int): (r: seq<string>)
    ensures Seqs.NoDup(r)
    ensures forall i :: 0 <= i < |r| ==> r[i] in urls
    ensures max >= 0 ==> |r| <= max && |r| == if max < |Seqs.Elems(urls)| then max else |Seqs.Elems(urls)|
    ensures max >= |Seqs.Elems(urls)| ==> forall i :: 0 <= i < |urls| ==> urls[i] in r
  {
    var d := Seqs.Dedup(urls);
    SelectionSize(urls);
    var r := Seqs.PyPrefix(d, max);
    assert forall i :: 0 <= i < |r| ==> r[i] == d[i];
    r
  }

  /** With two queries from nothing collected: the second is issued exactly
      when the first round fell short of `max`. */
  lemma GatherTwo(round: string -> seq<string>, qs: seq<string>, max: int)
    requires |qs| == 2
    ensures var g := Gather(round, qs, [], max);
      1 <= |g.issued| && (|g.issued| == 2 <==> |round(qs[0])| < max)
      && g.collected == Rounds(round, g.issued)
  {
    var g := Gather(round, qs, [], max);
    assert [] + Rounds(round, g.issued) == Rounds(round, g.issued);
    assert g.issued[0] == qs[0];
    assert Rounds(round, [qs[0]]) == round(qs[0]) by {
      assert [qs[0]][1..] == [];
    }
    if |g.issued| == 2 {
      assert g.issued[..1] == [qs[0]];
    } else {
      assert g.issued == [qs[0]];
    }
  }

  /** Removing duplicates leaves one entry per distinct URL. */
  lemma SelectionSize(collected: seq<string>)
    ensures |Seqs.Dedup(collected)| == |Seqs.Elems(collected)|
  {
    var d := Seqs.Dedup(collected);
    Seqs.NoDupCardinality(d);
    assert Seqs.Elems(d) == Seqs.Elems(collected);
  }

  /** Every URL of `urls` starts with `http`. */
  predicate AllHttp(urls: seq<string>) {
    forall i :: 0 <= i < |urls| ==> Collectors.IsHttp(urls[i])
  }

  /** Rounds that each collect only `http` URLs collect only `http` URLs. */
  lemma {:induction false} RoundsHttp(round: string -> seq<string>, qs: seq<string>)
    requires forall q :: AllHttp(round(q))
    ensures AllHttp(Rounds(round, qs))
  {
    if qs != [] {
      RoundsHttp(round, qs[1..]);
      var r, rest := round(qs[0]), Rounds(round, qs[1..]);
      assert AllHttp(r);
      forall i | 0 <= i < |r + rest| ensures Collectors.IsHttp((r + rest)[i]) {
        if i >= |r| {
          assert (r + rest)[i] == rest[i - |r|];
        }
      }
    }
  }
}
