/**
 * Field extraction from one product card (`parse_single_product`) and from a
 * whole page (`get_products`). The CSS selector lookups are taken as already
 * done: a card carries what each selector found.
 */
module Extraction {
  import opened Outcomes
  import opened PyText
  import opened Products

  /** A `span.ws-icon-star` element; only how many there are matters. */
  datatype StarIcon = StarIcon

  /**
   * What the selectors of one `.product-wrapper` yield. `title` is the
   * `title` attribute of `a.title` (absent when the link or the attribute is
   * missing); the other optional fields are the text of `.description`,
   * `.price` and `p.review-count`.
   */
  datatype Card = Card(
    title: Option<string>,
    description: Option<string>,
    price: Option<string>,
    stars: seq<StarIcon>,
    reviewCaption: Option<string>
  )

  /** Why one card yields no product (the exception Python raises). */
  datatype ExtractError =
    | MissingTitle
    | MissingDescription
    | MissingPrice
    | MissingReviewCount
    | InvalidReviewCount(text: string)

  const NoBreakSpace: char := '\U{a0}'
  const ReviewsSuffix: string := " reviews"

  /** `text.replace("\xa0", " ")`. */
  function NormalizeDescription(text: string): (r: string)
    ensures |r| == |text|
    ensures forall i :: 0 <= i < |text| ==> r[i] == if text[i] == NoBreakSpace then ' ' else text[i]
    ensures NoBreakSpace !in r
  {
    ReplaceCharPointwise(text, NoBreakSpace, ' ');
    ReplaceAll(text, [NoBreakSpace], [' '])
  }

  /** `text.replace("$", "")`: every `$` goes, not only a leading one. */
  function StripCurrency(text: string): (r: string)
    ensures r == Without(text, '$')
    ensures '$' !in r
  {
    RemoveCharIsWithout(text, '$');
    ReplaceAll(text, "$", "")
  }

  /** `int(caption.replace(" reviews", ""))`; `None` where `int` raises. */
  function ReviewCount(caption: string): Option<int> {
    ParseInt(ReplaceAll(caption, ReviewsSuffix, ""))
  }

  /**
   * `parse_single_product`. The keyword arguments are evaluated in order, so
   * the first missing or unparsable field decides the error, and no
   * `Product` exists unless every field was derived.
   */
  function ParseSingleProduct(card: Card): (r: Result<Product, ExtractError>)
    ensures r.Ok? <==>
      && card.title.Some? && card.description.Some? && card.price.Some?
      && card.reviewCaption.Some? && ReviewCount(card.reviewCaption.value).Some?
    ensures r.Ok? ==>
      && r.value.title == card.title.value
      && |r.value.description| == |card.description.value|
      && (forall i :: 0 <= i < |card.description.value| ==>
            r.value.description[i] == if card.description.value[i] == NoBreakSpace then ' ' else card.description.value[i])
      && NoBreakSpace !in r.value.description
      && r.value.price == Without(card.price.value, '$')
      && r.value.rating == |card.stars|
      && Some(r.value.numOfReviews) == ReviewCount(card.reviewCaption.value)
    ensures card.title.None? ==> r == Err(MissingTitle)
    ensures card.title.Some? && card.description.None? ==> r == Err(MissingDescription)
    ensures card.title.Some? && card.description.Some? && card.price.None? ==> r == Err(MissingPrice)
    ensures card.title.Some? && card.description.Some? && card.price.Some? && card.reviewCaption.None? ==>
              r == Err(MissingReviewCount)
    ensures card.title.Some? && card.description.Some? && card.price.Some? && card.reviewCaption.Some?
              && ReviewCount(card.reviewCaption.value).None? ==>
              r == Err(InvalidReviewCount(card.reviewCaption.value))
  {
    var title :- Need(card.title, MissingTitle);
    var description :- Need(card.description, MissingDescription);
    var price :- Need(card.price, MissingPrice);
    var caption :- Need(card.reviewCaption, MissingReviewCount);
    match ReviewCount(caption)
    case None => Err(InvalidReviewCount(caption))
    case Some(n) =>
      Ok(Product(title, NormalizeDescription(description), StripCurrency(price), |card.stars|, n))
  }

  /**
   * `get_products` over the cards in document order: one product per card,
   * or the error of the first card that fails.
   */
  function GetProducts(cards: seq<Card>): (r: Result<seq<Product>, ExtractError>)
    ensures r.Ok? <==> forall i :: 0 <= i < |cards| ==> ParseSingleProduct(cards[i]).Ok?
    ensures r.Ok? ==> |r.value| == |cards|
    ensures r.Ok? ==> forall i :: 0 <= i < |cards| ==> ParseSingleProduct(cards[i]) == Ok(r.value[i])
    ensures r.Err? ==> exists i :: 0 <= i < |cards| && ParseSingleProduct(cards[i]) == Err(r.error)
                                   && forall j :: 0 <= j < i ==> ParseSingleProduct(cards[j]).Ok?
  {
    MapUntilError(ParseSingleProduct, cards)
  }

  /** Review captions of the form `<digits> reviews` give the number the digits spell. */
  lemma ReviewCountOfDigits(ds: string)
    requires |ds| > 0 && AllDigits(ds)
    ensures ReviewCount(ds + ReviewsSuffix) == Some(DigitsValue(ds))
  {
    ReplaceAllSkipsPrefix(ds, ReviewsSuffix, ReviewsSuffix, "");
    ReplaceAllOfPattern(ReviewsSuffix, "", "");
    assert ReviewsSuffix + "" == ReviewsSuffix;
    assert ds + "" == ds;
    ParseIntOfDigits(ds);
  }

  /** The count written by `str(n)` is read back. */
  lemma ReviewCountOfDecimal(n: nat)
    ensures ReviewCount(NatToDecimal(n) + ReviewsSuffix) == Some(n)
  {
    ReviewCountOfDigits(NatToDecimal(n));
    NatToDecimalValue(n);
  }

  /** The singular caption `1 review` keeps its text after the replacement, and `int` rejects it. */
  lemma SingularCaptionFails()
    ensures ReviewCount("1 review") == None
  {
    var s := "1 review";
    assert |s| == |ReviewsSuffix|;
    assert !OccursAt(s, ReviewsSuffix, 0) by {
      assert s[0..|ReviewsSuffix|][0] == '1' != ReviewsSuffix[0];
    }
    assert ReplaceAll(s[1..], ReviewsSuffix, "") == s[1..];
    assert ReplaceAll(s, ReviewsSuffix, "") == s;
    ParseIntRejectsForeign(s, 2);
  }

  /** A card whose caption is `<digits> reviews` and which has every other piece yields a record. */
  lemma WellFormedCardParses(card: Card, ds: string)
    requires card.title.Some? && card.description.Some? && card.price.Some?
    requires |ds| > 0 && AllDigits(ds) && card.reviewCaption == Some(ds + ReviewsSuffix)
    ensures ParseSingleProduct(card).Ok?
    ensures ParseSingleProduct(card).value.numOfReviews == DigitsValue(ds)
    ensures ParseSingleProduct(card).value.rating == |card.stars| >= 0
  {
    ReviewCountOfDigits(ds);
  }

  /** The worked example: an "Apple iPad Air" card with three stars and 41 reviews. */
  lemma IpadAirExample(card: Card)
    requires card == Card(Some("Apple iPad Air"), Some("Wi-Fi,\U{a0}64GB"), Some("$646.58"),
                          [StarIcon, StarIcon, StarIcon], Some("41 reviews"))
    ensures ParseSingleProduct(card) == Ok(Product("Apple iPad Air", "Wi-Fi, 64GB", "646.58", 3, 41))
  {
    IpadAirCaption();
    IpadAirPrice("$646.58");
    IpadAirDescription();
    var r := ParseSingleProduct(card);
    assert r == Ok(Product("Apple iPad Air", NormalizeDescription("Wi-Fi,\U{a0}64GB"),
                           StripCurrency("$646.58"), 3, 41));
  }

  lemma IpadAirDescription()
    ensures NormalizeDescription("Wi-Fi,\U{a0}64GB") == "Wi-Fi, 64GB"
  {
  }

  lemma IpadAirCaption()
    ensures ReviewCount("41 reviews") == Some(41)
  {
    var ds := "41";
    assert DigitsValue(ds) == 41 by {
      assert ds[..|ds| - 1] == "4";
      assert "4"[..0] == "";
    }
    ReviewCountOfDigits(ds);
    assert ds + ReviewsSuffix == "41 reviews";
  }

  lemma IpadAirPrice(text: string)
    requires text == "$646.58"
    ensures StripCurrency(text) == "646.58"
  {
    var amount := "646.58";
    WithoutAbsent(amount, '$');
    WithoutConcat("$", amount, '$');
    assert Without("$", '$') == [];
    assert text == "$" + amount;
  }
}
