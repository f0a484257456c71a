/** The search flow across the two components: the bar encodes the trimmed
    text into the results page's address, and the results page decodes it
    back from `location.search` and filters the catalog with it. */
module SearchFlow {
  import opened Wrappers
  import Text
  import Utf8
  import UriComponent
  import SearchParams
  import Location
  import Navigation
  import ProductSearch

  /** The address `handleSearch` builds for trimmed text `t` splits into the
      results path and the search `?q=` followed by the query-encoding of
      `encodeURIComponent(t)`. */
  lemma SearchTargetParts(t: string)
    ensures Location.PathOf(Navigation.SearchTarget(t)) == Navigation.ResultsPath
    ensures Location.SearchOf(Navigation.SearchTarget(t))
         == "?" + Location.QueryEncode("q=" + UriComponent.Encode(t))
  {
    var e := UriComponent.Encode(t);
    UriComponent.EncodedHasNoDelimiters(t);
    SearchTargetShape(e);
    ResultsPathIsPlain();
    QueryIsClean(e);
    Location.TargetParts(Navigation.ResultsPath, "q=" + e);
  }

  /** `q=` followed by printable ASCII without `#` is a query the URL
      parser keeps whole: no `#`, no tab or newline, and no C0 control or
      space at its end. */
  lemma QueryIsClean(e: string)
    requires '#' !in e
    requires forall i :: 0 <= i < |e| ==> e[i] as int > 0x20
    ensures var query := "q=" + e;
      query != [] && '#' !in query
      && (forall i :: 0 <= i < |query| ==> !Location.IsTabOrNewline(query[i]))
      && !Location.IsC0OrSpace(query[|query| - 1])
  {
    var query := "q=" + e;
    forall i | 0 <= i < |query| ensures query[i] as int > 0x20 && query[i] != '#' {
      if i >= 2 {
        assert query[i] == e[i - 2];
      }
    }
  }

  lemma SearchTargetShape(e: string)
    ensures Navigation.ResultsPath + "?q=" + e == Navigation.ResultsPath + "?" + ("q=" + e)
  {
  }

  lemma ResultsPathIsPlain()
    ensures '?' !in Navigation.ResultsPath && '#' !in Navigation.ResultsPath
    ensures forall i :: 0 <= i < |Navigation.ResultsPath| ==> !Location.IsTabOrNewline(Navigation.ResultsPath[i])
    ensures Navigation.ResultsPath == [] || !Location.IsC0OrSpace(Navigation.ResultsPath[0])
  {
  }

  /** A parameter name outside the special-query set survives the URL
      parser's query encoding. */
  lemma QueryEncodeNamedPair(name: string, e: string)
    requires forall i :: 0 <= i < |name| ==> !Location.InSpecialQuerySet(name[i])
    ensures "?" + Location.QueryEncode(name + "=" + e) == "?" + name + "=" + Location.QueryEncode(e)
  {
    var pre := name + "=";
    PlainWithEquals(name);
    Location.QueryEncodeIdentity(pre);
    Location.QueryEncodeAppend(pre, e);
    PairShape(name, e);
    PairShape(name, Location.QueryEncode(e));
  }

  lemma PairShape(name: string, x: string)
    ensures name + "=" + x == (name + "=") + x
    ensures "?" + ((name + "=") + x) == "?" + name + "=" + x
  {
  }

  /** `=` is outside the special-query set, so a plain name followed by it
      is plain. */
  lemma PlainWithEquals(name: string)
    requires forall i :: 0 <= i < |name| ==> !Location.InSpecialQuerySet(name[i])
    ensures forall i :: 0 <= i < |name + "="| ==> !Location.InSpecialQuerySet((name + "=")[i])
  {
    var pre := name + "=";
    forall i | 0 <= i < |pre| ensures !Location.InSpecialQuerySet(pre[i]) {
      if i < |name| {
        assert pre[i] == name[i];
      }
    }
  }

  /** Query-encoding the output of `encodeURIComponent` introduces no `&`
      and no `+`. */
  lemma QueryEncodedHasNoDelimiters(t: string)
    ensures var r := Location.QueryEncode(UriComponent.Encode(t));
      Utf8.IsAscii(r) && '&' !in r && '+' !in r
  {
    var e := UriComponent.Encode(t);
    var r := Location.QueryEncode(e);
    UriComponent.EncodedHasNoDelimiters(t);
    forall i | 0 <= i < |r| ensures r[i] != '&' && r[i] != '+' {
      assert r[i] in e || r[i] == '%' || UriComponent.IsUpperHexDigit(r[i]);
    }
  }

  /** The location the bar navigates to for trimmed text `t`: the results
      path, and the search `?q=` followed by the query-encoded
      `encodeURIComponent(t)`. */
  lemma TargetLocation(t: string)
    ensures var r := Location.QueryEncode(UriComponent.Encode(t));
      Location.PathOf(Navigation.SearchTarget(t)) == Navigation.ResultsPath
      && Location.SearchOf(Navigation.SearchTarget(t)) == "?" + "q" + "=" + r
  {
    SearchTargetParts(t);
    QueryEncodeQPair(UriComponent.Encode(t));
  }

  lemma QueryEncodeQPair(e: string)
    ensures "?" + Location.QueryEncode("q=" + e) == "?" + "q" + "=" + Location.QueryEncode(e)
  {
    assert "q" + "=" + e == "q=" + e;
    QueryEncodeNamedPair("q", e);
  }

  /** `URLSearchParams.get("q")` on that search gives back `t`. */
  lemma TargetQueryReadsBack(t: string)
    ensures var r := Location.QueryEncode(UriComponent.Encode(t));
      SearchParams.Get(SearchParams.Parse("?" + "q" + "=" + r), "q") == Some(t)
  {
    var r := Location.QueryEncode(UriComponent.Encode(t));
    QueryEncodedHasNoDelimiters(t);
    Location.QueryEncodeOfEncoded(t);
    SearchParams.GetOfQuery("q", r, t);
  }

  /** Submitting non-blank text navigates to the results page, and the page
      reads back exactly the trimmed text as its query. */
  lemma SubmittedQueryReadsBack(typed: string)
    requires !Text.AllWhitespace(typed)
    ensures Navigation.HandleSearch(typed).Some?
    ensures var target := Navigation.HandleSearch(typed).value;
      Location.PathOf(target) == Navigation.ResultsPath
      && ProductSearch.QueryOf(Location.SearchOf(target)) == Text.Trim(typed)
  {
    var t := Text.Trim(typed);
    TargetLocation(t);
    TargetQueryReadsBack(t);
  }

  /** From the events: typing non-blank text and pressing Enter requests one
      navigation, to the results page, which reads back exactly the trimmed
      text as its query. */
  lemma TypedThenSubmittedReadsBack(bar: Navigation.Bar, typed: string)
    requires !Text.AllWhitespace(typed)
    ensures var o := Navigation.Run(bar, [Navigation.Edit(typed), Navigation.Submit]);
      o.bar == Navigation.Bar(typed) && |o.navigations| == 1
      && Location.PathOf(o.navigations[0]) == Navigation.ResultsPath
      && ProductSearch.QueryOf(Location.SearchOf(o.navigations[0])) == Text.Trim(typed)
  {
    Navigation.EditThenSubmit(bar, typed);
    SubmittedQueryReadsBack(typed);
  }

  /** End to end: submitting `typed` leads the results page to show exactly
      the catalog products whose lower-cased display name contains the
      lower-cased trimmed text, in catalog order. */
  lemma SubmittedSearchResults(typed: string, state: ProductSearch.StoreState)
    requires !Text.AllWhitespace(typed)
    ensures var target := Navigation.HandleSearch(typed).value;
      ProductSearch.Results(ProductSearch.QueryOf(Location.SearchOf(target)), ProductSearch.CatalogOf(state))
      == ProductSearch.FilterMatching(ProductSearch.CatalogOf(state), Text.Lower(Text.Trim(typed)))
  {
    SubmittedQueryReadsBack(typed);
    var t := Text.Trim(typed);
    Text.LowerTrimCommute(t);
    Text.TrimIdempotent(typed);
    assert ProductSearch.NormalizeQuery(t) == Text.Lower(t);
    assert |Text.Lower(t)| == |t| > 0;
  }
}
