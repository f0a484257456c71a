/** The search results page (`ProductCherche`): it reads the query `q` from
    the location, reads the catalog from the store, keeps in catalog order the
    products whose lower-cased display name contains the lower-cased, trimmed
    query, and renders the query, the count and one card per result. */
module ProductSearch {
  import opened Wrappers
  import Text
  import Seqs
  import SearchParams

  /** A catalog entry as the page reads it; `title`, `name` and `image` may
      be absent. */
  datatype Product = Product(id: int, title: Option<string>, name: Option<string>, image: Option<string>, price: real)

  /** The slice of the store the page reads: `state.products?.items`. */
  datatype ProductsSlice = ProductsSlice(items: Option<seq<Product>>)
  datatype StoreState = StoreState(products: Option<ProductsSlice>)

  /** `new URLSearchParams(search).get("q") || ""`: the query parameter, or
      the empty string when there is none. */
  function QueryOf(search: string): (q: string)
    ensures q != "" ==> SearchParams.Pair("q", q) in SearchParams.Parse(search)
    ensures (forall i :: 0 <= i < |SearchParams.Parse(search)| ==> SearchParams.Parse(search)[i].name != "q") ==> q == ""
    ensures forall i :: (0 <= i < |SearchParams.Parse(search)| && SearchParams.Parse(search)[i].name == "q"
                         && forall j :: 0 <= j < i ==> SearchParams.Parse(search)[j].name != "q")
                        ==> q == SearchParams.Parse(search)[i].value
  {
    var pairs := SearchParams.Parse(search);
    QueryOfPairs(pairs, "q");
    SearchParams.Get(pairs, "q").GetOr("")
  }

  lemma QueryOfPairs(pairs: seq<SearchParams.Pair>, name: string)
    ensures var v := SearchParams.Get(pairs, name).GetOr("");
      (v != "" ==> SearchParams.Pair(name, v) in pairs)
      && ((forall i :: 0 <= i < |pairs| ==> pairs[i].name != name) ==> v == "")
      && forall i :: (0 <= i < |pairs| && pairs[i].name == name && forall j :: 0 <= j < i ==> pairs[j].name != name)
                     ==> v == pairs[i].value
  {
  }

  /** `state.products?.items || []`: a missing slice or item list is the
      empty catalog. */
  function CatalogOf(state: StoreState): (catalog: seq<Product>)
    ensures state.products.None? ==> catalog == []
    ensures state.products.Some? && state.products.value.items.None? ==> catalog == []
    ensures catalog != [] ==> state.products == Some(ProductsSlice(Some(catalog)))
    ensures state.products.Some? && state.products.value.items.Some? ==> catalog == state.products.value.items.value
  {
    match state.products
    case None => []
    case Some(slice) => slice.items.GetOr([])
  }

  /** `p.title || p.name || ""`: an empty title falls through to the name. */
  function DisplayName(p: Product): (r: string)
    ensures r == "" || Some(r) == p.title || Some(r) == p.name
    ensures r == "" <==> (p.title.None? || p.title.value == "") && (p.name.None? || p.name.value == "")
    ensures p.title.Some? && p.title.value != "" ==> r == p.title.value
  {
    if p.title.Some? && p.title.value != "" then p.title.value
    else if p.name.Some? && p.name.value != "" then p.name.value
    else ""
  }

  /** `q.toLowerCase().trim()`. */
  function NormalizeQuery(q: string): string {
    Text.Trim(Text.Lower(q))
  }

  /** The filter's test: the lower-cased display name includes the query. */
  predicate Matches(p: Product, query: string) {
    Text.Includes(Text.Lower(DisplayName(p)), query)
  }

  /** `products.filter(p => ...includes(query))`: exactly the matching
      products, in catalog order, each as often as the catalog holds it. */
  function FilterMatching(products: seq<Product>, query: string): (r: seq<Product>)
    ensures Seqs.IsSubsequence(r, products)
    ensures forall i :: 0 <= i < |r| ==> Matches(r[i], query)
    ensures forall i :: 0 <= i < |products| && Matches(products[i], query) ==> products[i] in r
  {
    if products == [] then []
    else
      var rest := FilterMatching(products[1..], query);
      if Matches(products[0], query) then [products[0]] + rest else rest
  }

  /** The filter keeps each matching product as often as the catalog holds
      it and drops every other product entirely: it never adds, duplicates
      or loses a match. */
  lemma {:induction false} FilterMultiplicity(products: seq<Product>, query: string, p: Product)
    ensures multiset(FilterMatching(products, query))[p] == if Matches(p, query) then multiset(products)[p] else 0
  {
    if products != [] {
      FilterMultiplicity(products[1..], query, p);
      assert products == [products[0]] + products[1..];
    }
  }

  /** The `results` memo: empty for a blank query, otherwise the filter. */
  function Results(q: string, products: seq<Product>): (r: seq<Product>)
    ensures NormalizeQuery(q) == "" ==> r == []
    ensures Seqs.IsSubsequence(r, products)
    ensures forall i :: 0 <= i < |r| ==>
      NormalizeQuery(q) != "" && Text.Contains(Text.Lower(DisplayName(r[i])), NormalizeQuery(q))
    ensures forall i :: 0 <= i < |products| ==>
      (NormalizeQuery(q) != "" && Text.Contains(Text.Lower(DisplayName(products[i])), NormalizeQuery(q)) ==> products[i] in r)
  {
    var query := NormalizeQuery(q);
    if query == "" then [] else FilterMatching(products, query)
  }

  /** A query that is blank after lower-casing and trimming finds nothing,
      although every name contains the empty string. */
  lemma BlankQueryFindsNothing(q: string, products: seq<Product>)
    requires Text.AllWhitespace(q)
    ensures Results(q, products) == []
  {
    Text.LowerTrimCommute(q);
  }

  /** The query is compared lower-cased, so the letter case of the query and
      of the names does not matter. */
  lemma ResultsIgnoreQueryCase(q1: string, q2: string, products: seq<Product>)
    requires Text.Lower(q1) == Text.Lower(q2)
    ensures Results(q1, products) == Results(q2, products)
  {
  }

  // ---------------------------------------------------------------------------
  // The memo
  // ---------------------------------------------------------------------------

  /** What `useMemo` keeps between renders: the dependencies and the value. */
  datatype Memo = Memo(q: string, products: seq<Product>, results: seq<Product>)

  predicate MemoValid(m: Memo) {
    m.results == Results(m.q, m.products)
  }

  /** `useMemo(..., [q, products])`: the cached value when both dependencies
      are unchanged, a fresh computation otherwise. Because `Results` is pure,
      a valid cache always yields what a fresh computation would. */
  function UseMemo(cache: Option<Memo>, q: string, products: seq<Product>): (m: Memo)
    ensures m.q == q && m.products == products
    ensures (cache.None? || MemoValid(cache.value)) ==> m.results == Results(q, products)
  {
    if cache.Some? && cache.value.q == q && cache.value.products == products then cache.value
    else Memo(q, products, Results(q, products))
  }

  // ---------------------------------------------------------------------------
  // Rendering
  // ---------------------------------------------------------------------------

  /** One result card: `key={p.id}`, `<img src={p.image} alt={p.title}>`,
      `<h3>{p.title}</h3>` and the price. The card shows the title, not the
      display name, so a product found through its `name` has an empty
      heading. */
  datatype Card = Card(key: int, imageSrc: Option<string>, alt: Option<string>, heading: Option<string>, price: real)

  /** The observable page: the echoed raw query, the count line and the cards. */
  datatype Page = Page(echoedQuery: string, countLabel: string, cards: seq<Card>)

  const CountSuffix: string := " produit(s)"

  function CardOf(p: Product): Card {
    Card(p.id, p.image, p.title, p.title, p.price)
  }

  /** The page for the echoed query `q` and the list `results`. */
  function PageOf(q: string, results: seq<Product>): (page: Page)
    ensures page.echoedQuery == q
    ensures page.countLabel == Text.NatToDecimal(|results|) + CountSuffix
    ensures |page.cards| == |results|
    ensures forall i :: 0 <= i < |page.cards| ==> page.cards[i] == CardOf(results[i])
  {
    Page(q, Text.NatToDecimal(|results|) + CountSuffix, seq(|results|, i requires 0 <= i < |results| => CardOf(results[i])))
  }

  /** The page rendered for a location `search` and a store snapshot. */
  function RenderPage(search: string, state: StoreState): (page: Page)
    ensures page.echoedQuery == QueryOf(search)
    ensures page.countLabel == Text.NatToDecimal(|page.cards|) + CountSuffix
    ensures |page.cards| == |Results(QueryOf(search), CatalogOf(state))|
    ensures forall i :: 0 <= i < |page.cards| ==>
      page.cards[i].key == Results(QueryOf(search), CatalogOf(state))[i].id
  {
    PageOf(QueryOf(search), Results(QueryOf(search), CatalogOf(state)))
  }

  /** The count line reads back as the number of cards shown. */
  lemma CountLabelReadsBack(search: string, state: StoreState)
    ensures var page := RenderPage(search, state);
      var digits := page.countLabel[..|page.countLabel| - |CountSuffix|];
      (forall i :: 0 <= i < |digits| ==> Text.IsDigit(digits[i]))
      && Text.DecimalValue(digits) == |page.cards|
  {
    var page := RenderPage(search, state);
    var n := |page.cards|;
    var digits := Text.NatToDecimal(n);
    assert page.countLabel == digits + CountSuffix;
    assert page.countLabel[..|page.countLabel| - |CountSuffix|] == digits;
    Text.DecimalRoundTrip(n);
  }

  /** A missing or empty catalog renders "0 produit(s)" and no card. */
  lemma EmptyCatalogRendersZero(search: string, state: StoreState)
    requires CatalogOf(state) == []
    ensures RenderPage(search, state).countLabel == "0" + CountSuffix
    ensures RenderPage(search, state).cards == []
  {
    var q := QueryOf(search);
    var results := Results(q, CatalogOf(state));
    NothingFromNothing(results);
    var page := PageOf(q, results);
    assert RenderPage(search, state) == page;
    assert Text.NatToDecimal(|results|) == "0";

  }

  lemma NothingFromNothing(r: seq<Product>)
    requires Seqs.IsSubsequence(r, [])
    ensures r == []
  {
  }
}
