/** The navigation bar (`Navigation`): which parts it shows for a variant,
    the cart badge, and the search form as a pure event handler that returns
    the navigations it requests instead of calling `navigate`. */
module Navigation {
  import opened Wrappers
  import Text
  import UriComponent

  const ResultsPath: string := "/productcherche"
  const AccountPath: string := "/account-details/profile"

  /** The targets of the bar's router links: the logo and "Shop" (`/`), "Men",
      "Women", the cart icon, and the login and signup links. */
  const LinkTargets: seq<string> := ["/", "/men", "/women", "/cart-items", "/v1/login", "/v1/register"]

  /** The target `handleSearch` navigates to for an already trimmed query. */
  function SearchTarget(trimmed: string): string {
    ResultsPath + "?q=" + UriComponent.Encode(trimmed)
  }

  /** `handleSearch`: trim the field's text; blank text requests nothing,
      anything else requests the results page with the text encoded. */
  function HandleSearch(q: string): (r: Option<string>)
    ensures r.None? <==> Text.AllWhitespace(q)
    ensures r.Some? ==> r.value == SearchTarget(Text.Trim(q)) && Text.Trim(q) != ""
  {
    var query := Text.Trim(q);
    if query == "" then None else Some(SearchTarget(query))
  }

  /** Only surrounding whitespace is discarded: two texts that trim alike
      request the same navigation. */
  lemma HandleSearchDependsOnTrimmed(q1: string, q2: string)
    requires Text.Trim(q1) == Text.Trim(q2)
    ensures HandleSearch(q1) == HandleSearch(q2)
  {
  }

  // ---------------------------------------------------------------------------
  // Buttons and events
  // ---------------------------------------------------------------------------

  /** HTML button types: a `submit` button submits its form when clicked. */
  datatype ButtonType = SubmitButton | PlainButton

  /** What a button's `onClick` does: nothing, a console log, or `navigate`. */
  datatype Handler = NoHandler | LogToConsole(message: string) | GoTo(path: string)

  datatype Button = Button(kind: ButtonType, onClick: Handler)

  /** The buttons of the bar, with the types and handlers the component gives them. */
  const SearchIconButton: Button := Button(SubmitButton, NoHandler)
  const MicButton: Button := Button(PlainButton, LogToConsole("mic"))
  const CameraButton: Button := Button(PlainButton, LogToConsole("camera"))
  const AiModeButton: Button := Button(PlainButton, LogToConsole("AI mode"))
  const WishlistButton: Button := Button(PlainButton, NoHandler)
  const AccountButton: Button := Button(PlainButton, GoTo(AccountPath))

  /** The buttons the bar renders. */
  predicate IsBarButton(b: Button) {
    b in [SearchIconButton, MicButton, CameraButton, AiModeButton, WishlistButton, AccountButton]
  }

  /** User events: editing the field, submitting the form (Enter in the
      field), clicking a button, following a `Link` or `NavLink` to `to`. */
  datatype Event = Edit(value: string) | Submit | Click(button: Button) | FollowLink(to: string)

  /** The component state: the field's text `q`. */
  datatype Bar = Bar(q: string)

  /** The new state and the navigations requested, in order. */
  datatype Outcome = Outcome(bar: Bar, navigations: seq<string>)

  function HandlerNavigations(h: Handler): seq<string> {
    match h
    case GoTo(path) => [path]
    case _ => []
  }

  function SubmitNavigations(q: string): (r: seq<string>)
    ensures |r| <= 1
  {
    match HandleSearch(q)
    case None => []
    case Some(target) => [target]
  }

  /** One event: `setQ(e.target.value)` on edit; `handleSearch` on submit;
      a click runs the button's handler and, for a submit button, submits;
      a router link navigates to its target. */
  function Dispatch(bar: Bar, e: Event): (o: Outcome)
    ensures e.Edit? ==> o == Outcome(Bar(e.value), [])
    ensures !e.Edit? ==> o.bar == bar
    ensures e.Click? && e.button.kind == PlainButton && !e.button.onClick.GoTo? ==> o.navigations == []
    ensures e.Click? && e.button.kind == PlainButton && e.button.onClick.GoTo? ==> o.navigations == [e.button.onClick.path]
    ensures (e.Submit? || e == Click(SearchIconButton)) ==>
      (o.navigations == [] <==> Text.AllWhitespace(bar.q)) &&
      (!Text.AllWhitespace(bar.q) ==> o.navigations == [SearchTarget(Text.Trim(bar.q))])
    ensures e.FollowLink? ==> o.navigations == [e.to]
  {
    match e
    case Edit(v) => Outcome(Bar(v), [])
    case Submit => Outcome(bar, SubmitNavigations(bar.q))
    case Click(b) =>
      Outcome(bar, HandlerNavigations(b.onClick) + (if b.kind == SubmitButton then SubmitNavigations(bar.q) else []))
    case FollowLink(to) => Outcome(bar, [to])
  }

  /** The microphone, camera, "Mode IA" and wishlist buttons are plain
      buttons: whatever the field holds, clicking them changes nothing and
      navigates nowhere. */
  lemma AuxiliaryButtonsInert(bar: Bar, b: Button)
    requires b in [MicButton, CameraButton, AiModeButton, WishlistButton]
    ensures Dispatch(bar, Click(b)) == Outcome(bar, [])
  {
  }

  /** Clicking the search icon is the same as submitting the form. */
  lemma SearchIconSubmits(bar: Bar)
    ensures Dispatch(bar, Click(SearchIconButton)) == Dispatch(bar, Submit)
  {
  }

  /** Had the microphone button been left without `type="button"`, HTML would
      make it a submit button, and clicking it with non-blank text in the
      field would navigate to the results page. */
  lemma UntypedMicWouldSubmit(q: string)
    requires !Text.AllWhitespace(q)
    ensures Dispatch(Bar(q), Click(Button(SubmitButton, MicButton.onClick))).navigations
         == [SearchTarget(Text.Trim(q))]
    ensures Dispatch(Bar(q), Click(MicButton)).navigations == []
  {
  }

  /** A sequence of events, from a bar state: the final state and every
      navigation requested, in order. */
  function Run(bar: Bar, events: seq<Event>): (o: Outcome)
    decreases |events|
  {
    if events == [] then Outcome(bar, [])
    else
      var first := Dispatch(bar, events[0]);
      var rest := Run(first.bar, events[1..]);
      Outcome(rest.bar, first.navigations + rest.navigations)
  }

  /** Typing `t` and pressing Enter leaves `t` in the field and requests
      nothing for blank text, and otherwise exactly the results page for the
      trimmed text. */
  lemma EditThenSubmit(bar: Bar, t: string)
    ensures Run(bar, [Edit(t), Submit])
         == Outcome(Bar(t), if Text.AllWhitespace(t) then [] else [SearchTarget(Text.Trim(t))])
  {
    assert [Edit(t), Submit][1..] == [Submit];
    assert [Submit][1..] == [];
  }

  /** The value of the last edit among `events`, or `initial` if there is none. */
  function LastEditedText(initial: string, events: seq<Event>): string
    decreases |events|
  {
    if events == [] then initial
    else if events[|events| - 1].Edit? then events[|events| - 1].value
    else LastEditedText(initial, events[..|events| - 1])
  }

  /** A navigation the bar may request: a link target, the account page, or
      the results page for some non-blank trimmed text. */
  ghost predicate IsBarNavigation(target: string) {
    target in LinkTargets || target == AccountPath ||
    exists t :: SearchTarget(t) == target && t != "" && Text.Trim(t) == t
  }

  lemma SubmitNavigationIsSearch(q: string)
    ensures forall target :: target in SubmitNavigations(q) ==> IsBarNavigation(target)
  {
    if HandleSearch(q).Some? {
      Text.TrimIdempotent(q);
      var t := Text.Trim(q);
      assert SearchTarget(t) == SubmitNavigations(q)[0];
    }
  }

  /** Whatever the user does with the bar's field, form, buttons and links,
      it only ever requests a link target, the account page or a results page
      for a non-blank, already trimmed query, and the final field text is the
      value of the last edit. */
  lemma {:induction false} RunNavigations(bar: Bar, events: seq<Event>)
    requires forall i :: 0 <= i < |events| && events[i].Click? ==> IsBarButton(events[i].button)
    requires forall i :: 0 <= i < |events| && events[i].FollowLink? ==> events[i].to in LinkTargets
    ensures forall target :: target in Run(bar, events).navigations ==> IsBarNavigation(target)
    ensures Run(bar, events).bar == Bar(LastEditedText(bar.q, events))
    decreases |events|
  {
    if events != [] {
      var first := Dispatch(bar, events[0]);
      RunNavigations(first.bar, events[1..]);
      SubmitNavigationIsSearch(bar.q);
      assert forall target :: target in first.navigations ==> IsBarNavigation(target);
      var rest := Run(first.bar, events[1..]);
      assert Run(bar, events).navigations == first.navigations + rest.navigations;
      LastEditedTextSplit(bar.q, events);
    }
  }

  /** The last edit of `events` is the last edit of its tail, if the tail has
      one, and otherwise that of its first event. */
  lemma {:induction false} LastEditedTextSplit(initial: string, events: seq<Event>)
    requires events != []
    ensures LastEditedText(initial, events)
         == LastEditedText(if events[0].Edit? then events[0].value else initial, events[1..])
    decreases |events|
  {
    if |events| > 1 {
      var init := events[..|events| - 1];
      assert init[0] == events[0];
      assert init[1..] == events[1..][..|events[1..]| - 1];
      if !events[|events| - 1].Edit? {
        LastEditedTextSplit(initial, init);
      }
    }
  }

  // ---------------------------------------------------------------------------
  // Layout
  // ---------------------------------------------------------------------------

  /** What the bar shows: the shop links, the search form, the action icons
      (wishlist, account, cart), the cart badge with its count, and the
      login/signup links. */
  datatype Layout = Layout(shopLinks: bool, searchForm: bool, actionIcons: bool, cartBadge: Option<int>, authLinks: bool)

  /** The bar for a `variant` prop (absent means `"default"`) and the cart
      item count. */
  function Render(variant: Option<string>, cartLength: int): (l: Layout)
    ensures l.shopLinks == l.searchForm == l.actionIcons
    ensures l.searchForm <==> variant.GetOr("default") == "default"
    ensures l.authLinks <==> variant.GetOr("default") == "auth"
    ensures !(l.searchForm && l.authLinks)
    ensures l.cartBadge.Some? <==> l.actionIcons && cartLength > 0
    ensures l.cartBadge.Some? ==> l.cartBadge.value == cartLength
  {
    var v := variant.GetOr("default");
    var isDefault := v == "default";
    Layout(isDefault, isDefault, isDefault, if isDefault && cartLength > 0 then Some(cartLength) else None, v == "auth")
  }
}
