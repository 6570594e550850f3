/**
 * The "load more" expansion in `get_products_from_page`. The browser is an
 * oracle: a page either has no `a.ecomerce-items-scroll-more` button, or has
 * one whose style is read once before the loop and once more after each
 * activation, when the bounded wait for the button to be present again
 * either finds it or times out.
 */
module Materialize {
  import opened Outcomes
  import opened PyText
  import opened Products
  import opened Extraction

  const HiddenMarker: string := "display: none"

  /** The loop's exit test: the style text contains `display: none` verbatim. */
  predicate Hidden(style: string) {
    Contains(style, HiddenMarker)
  }

  /** What the wait after one activation produces. */
  datatype Read = Reappeared(style: string) | WaitTimedOut

  /**
   * `NoLoadMore`: `find_elements` found no button. `LoadMore(s0, observed)`: the
   * button's style before the loop is `s0`, and `observed[i]` is what the wait
   * after activation `i + 1` produces.
   */
  datatype Page = NoLoadMore | LoadMore(initialStyle: string, observed: seq<Read>)

  /** A read after which the loop does not activate again. */
  predicate Stops(r: Read) {
    r.WaitTimedOut? || Hidden(r.style)
  }

  predicate SomeStop(observed: seq<Read>) {
    exists j :: 0 <= j < |observed| && Stops(observed[j])
  }

  /**
   * The page's loop ends: there is no button, the button starts hidden, or
   * some activation is followed by a hidden button or a timeout. On any other
   * page the loop of the source never ends.
   */
  predicate Settles(page: Page) {
    page.LoadMore? && !Hidden(page.initialStyle) ==> SomeStop(page.observed)
  }

  /** The index of the first read that stops the loop. */
  function FirstStop(observed: seq<Read>): (k: nat)
    requires SomeStop(observed)
    ensures k < |observed| && Stops(observed[k])
    ensures forall j :: 0 <= j < k ==> !Stops(observed[j])
    decreases |observed|
  {
    if Stops(observed[0]) then 0
    else
      assert SomeStop(observed[1..]) by {
        var j :| 0 <= j < |observed| && Stops(observed[j]);
        assert j > 0 && observed[1..][j - 1] == observed[j];
      }
      var k := 1 + FirstStop(observed[1..]);
      assert forall j :: 0 < j < k ==> observed[j] == observed[1..][j - 1];
      k
  }

  /** The style seen after `i` activations (the initial style for `i == 0`). */
  function StyleAfter(page: Page, i: nat): string
    requires page.LoadMore? && i <= |page.observed|
    requires i > 0 ==> page.observed[i - 1].Reappeared?
  {
    if i == 0 then page.initialStyle else page.observed[i - 1].style
  }

  /** How the expansion ended. */
  datatype Expansion =
    | NoAffordance                // no button: the loop is skipped
    | Exhausted(activations: nat) // the button reports hidden
    | TimedOut(activation: nat)   // the wait after this activation failed

  /** The page's loop fails with a reappearance timeout. */
  predicate TimesOut(page: Page)
    requires Settles(page)
  {
    page.LoadMore? && !Hidden(page.initialStyle) && page.observed[FirstStop(page.observed)].WaitTimedOut?
  }

  /**
   * The expansion loop (lines 113-125). `clicks` counts the scripted
   * activations, `progress` the progress-bar updates.
   */
  method ExpandAll(page: Page) returns (outcome: Expansion, clicks: nat, progress: nat)
    requires Settles(page)
    ensures page.NoLoadMore? ==> outcome == NoAffordance && clicks == 0 && progress == 0
    ensures outcome.NoAffordance? <==> page.NoLoadMore?
    ensures page.LoadMore? && Hidden(page.initialStyle) ==>
              outcome == Exhausted(0) && clicks == 0 && progress == 0
    ensures page.LoadMore? && !Hidden(page.initialStyle) ==>
              clicks == FirstStop(page.observed) + 1
    ensures outcome.TimedOut? <==> TimesOut(page)
    ensures outcome.TimedOut? ==> outcome == TimedOut(clicks) && progress == clicks - 1
    ensures outcome.Exhausted? ==>
              && outcome == Exhausted(clicks) && progress == clicks
              && (forall j :: 0 <= j < clicks ==> page.observed[j].Reappeared?)
              && Hidden(StyleAfter(page, clicks))
              && (forall i :: 0 <= i < clicks ==> !Hidden(StyleAfter(page, i)))
  {
    clicks, progress := 0, 0;
    if page.NoLoadMore? {
      return NoAffordance, clicks, progress;
    }
    var observed := page.observed;
    var style := page.initialStyle;
    ghost var last := if Hidden(style) then 0 else FirstStop(observed);
    while !Hidden(style)
      invariant clicks <= |observed|
      invariant forall j :: 0 <= j < clicks ==> observed[j].Reappeared?
      invariant style == StyleAfter(page, clicks)
      invariant forall i :: 0 <= i < clicks ==> !Hidden(StyleAfter(page, i))
      invariant progress == clicks
      invariant !Hidden(page.initialStyle) ==> last == FirstStop(observed)
      invariant clicks <= last + 1
      decreases last + 1 - clicks
    {
      assert forall j :: 0 <= j < clicks ==> !Stops(observed[j]) by {
        forall j | 0 <= j < clicks ensures !Stops(observed[j]) {
          assert observed[j].style == StyleAfter(page, j + 1);
        }
      }
      clicks := clicks + 1;
      var r := observed[clicks - 1];
      if r.WaitTimedOut? {
        return TimedOut(clicks), clicks, progress;
      }
      style := r.style;
      progress := progress + 1;
    }
    outcome := Exhausted(clicks);
  }

  /** Why a page yields no products. */
  datatype ScrapeError = ReappearanceTimeout(activation: nat) | ExtractionFailed(cause: ExtractError)

  /**
   * `get_products_from_page` after navigation and the cookie banner:
   * expand, then extract the cards of the page as rendered at the end
   * (`rendered`). A timeout ends the page with no products.
   */
  method GetProductsFromPage(page: Page, rendered: seq<Card>) returns (r: Result<seq<Product>, ScrapeError>)
    requires Settles(page)
    ensures TimesOut(page) ==> r == Err(ReappearanceTimeout(FirstStop(page.observed) + 1))
    ensures !TimesOut(page) ==> r.Ok? == GetProducts(rendered).Ok?
    ensures !TimesOut(page) && r.Ok? ==> r.value == GetProducts(rendered).value
    ensures !TimesOut(page) && r.Err? ==> r.error == ExtractionFailed(GetProducts(rendered).error)
  {
    var outcome, clicks, progress := ExpandAll(page);
    if outcome.TimedOut? {
      return Err(ReappearanceTimeout(outcome.activation));
    }
    match GetProducts(rendered)
    case Ok(products) => r := Ok(products);
    case Err(e) => r := Err(ExtractionFailed(e));
  }
}
