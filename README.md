# E-commerce listing scraper: verified model of its sequential core

The scraper opens each category page of a demo shop in a headless browser.
It presses the "load more" button until the button reports itself hidden,
turns every `.product-wrapper` card into a `Product` record
(`title, description, price, rating, num_of_reviews`), and writes the records
of each category out as rows under a fixed header. One browser session is
shared through a singleton metaclass and is released at the end.

This Dafny project models the parts of `app/parse.py` that decide outcomes:

- **Session** (`session.dfy`). The registry of `SingletonMeta`:
  `__call__` builds and stores an instance on the first call for a class and
  returns the stored one afterwards. `close_driver` deletes the class's entry.
  The registry is a value (`Registry`: the map plus a construction counter)
  with the functions `MetaCall` and `DeleteEntry`. The class `SingletonMeta`
  holds the same map as a field, and its methods update it in place.
  Instance identity is modelled by the position in the order of
  construction.
- **Materialize** (`materialize.dfy`). The expansion `while` loop, as a method
  over an oracle page. A page either has no button, or has an initial style
  plus, for each activation, either the reappeared button's style or a wait
  timeout. The loop continues while the style does not contain
  `display: none` verbatim.
- **Extraction** (`extraction.dfy`). `parse_single_product` and `get_products`
  over cards whose selector results are given as optional strings and a list
  of star icons.
- **PyText** (`pytext.dfy`). The Python built-ins these steps use: `str.replace`
  (leftmost, non-overlapping, all occurrences), `sub in s`, and `int(s)` in
  base 10. `int(s)` follows CPython's rules: white space is stripped at both
  ends (ASCII `\t \n \v \f \r` and space, and the non-ASCII Unicode white
  space), one sign may come first, and a single `_` may separate two digits.
- **Products** (`products.dfy`). The record, `TITLE_ROW`, and the cell order
  of `astuple` in the exported rows.
- **Outcomes** (`outcomes.dfy`). `Option`/`Result`: a raised exception
  becomes an `Err`, and a missing element becomes `None`.

The model follows the code as written. Where the code's effect is wider than "drop a leading `$`" or "drop a trailing ` reviews`", the model keeps that wider effect:

- `replace("$", "")` removes every `$`, not only a leading one.
- `replace(" reviews", "")` removes every occurrence of ` reviews`, not only
  a trailing one. A singular caption `1 review` is left as it is, so `int`
  fails on it and the whole item fails.
- The rating is not range-checked.
- The session is released only on the success path. The registry model does
  not add a release on failure.

## Model

| member | source | states |
|---|---|---|
| `PyText.ReplaceCharPointwise` | app/parse.py:82-83 | replacing one character by one character keeps the length, changes each copy of it and leaves every other position as it was |
| `PyText.RemoveCharIsWithout` | app/parse.py:84 | replacing a character by the empty string equals `Without`, an independent definition that drops every copy and keeps the rest in order |
| `PyText.WithoutConcat` | app/parse.py:84 | dropping a character distributes over concatenation |
| `PyText.WithoutAbsent` | app/parse.py:84 | dropping a character that does not occur changes nothing |
| `PyText.Without` | app/parse.py:84 | the result never holds the dropped character, holds every other character of the input, and is no longer than the input |
| `PyText.ReplaceAllSkipsPrefix` | app/parse.py:88 | a prefix in which the pattern cannot start passes through `replace` untouched |
| `PyText.ReplaceAllOfPattern` | app/parse.py:88 | an occurrence of the pattern at the front of any text is replaced by the replacement, and the rest of the text is scanned on |
| `PyText.LeadingSpaces` | app/parse.py:86-89 | counts exactly the white space at the start that `int()` skips: ASCII `\t \n \v \f \r` and space, plus the non-ASCII `Py_UNICODE_ISSPACE` characters, but not U+001C-U+001F |
| `PyText.ContentEnd` | app/parse.py:86-89 | marks exactly the trailing white space that `int()` skips, from the same character set as `LeadingSpaces` |
| `PyText.StripKeeps` | app/parse.py:86-89 | every character that is not white space lies inside the stripped text that `int()` parses |
| `PyText.StripTrims` | app/parse.py:86-89 | the stripped text neither starts nor ends with white space |
| `PyText.StripUnpadded` | app/parse.py:86-89 | text without surrounding white space is parsed as it is |
| `PyText.ParseMagnitudeOfDigits` | app/parse.py:86-89 | a plain digit string is a valid digit run worth its decimal value |
| `PyText.ParseIntOfDigits` | app/parse.py:86-89 | `int()` of a non-empty ASCII digit string is its decimal value |
| `PyText.ParseIntOfNegatedDigits` | app/parse.py:86-89 | `int()` of `-` followed by digits is the negated value |
| `PyText.ParseIntOfDecimal` | app/parse.py:86-89 | `int(str(n)) == n` for every integer `n` |
| `PyText.NatToDecimalValue` | app/parse.py:86-89 | the decimal rendering of `n` has digit value `n` |
| `PyText.NatToDecimal` | app/parse.py:86-89 | the rendering is a non-empty digit string |
| `PyText.ParseIntRejectsForeign` | app/parse.py:86-89 | `int()` fails when any character is neither white space, a sign, a digit nor `_` |
| `PyText.ParseIntNeedsDigit` | app/parse.py:86-89 | `int()` fails on text that holds no digit |
| `PyText.SeparatorIsNotSpace` | app/parse.py:86-89 | an ASCII separator such as U+001C before the digits is not skipped, so `int("\x1c41")` fails |
| `PyText.ReplaceAll` | app/parse.py:83-88 | `str.replace` with a non-empty pattern, as used at lines 83, 84 and 88. Its own contract: a same-length replacement keeps the length. Its other properties are in `ReplaceAllWithoutOccurrence`, `ReplaceCharPointwise`, `RemoveCharIsWithout`, `ReplaceAllKeepsHead`, `ReplaceAllSkipsPrefix` and `ReplaceAllOfPattern` |
| `PyText.ReplaceAllWithoutOccurrence` | app/parse.py:83-88 | text in which the pattern occurs nowhere is returned unchanged by `replace` |
| `PyText.ReplaceAllKeepsHead` | app/parse.py:83-88 | a first character that cannot start the pattern is copied, and `replace` goes on with the rest |
| `PyText.ParseInt` | app/parse.py:86-89 | base-10 `int()` on a string, with no contract of its own. Its properties are in `ParseIntOfDecimal`, `ParseIntOfDigits`, `ParseIntOfNegatedDigits`, `ParseIntRejectsForeign`, `ParseIntNeedsDigit` and `SeparatorIsNotSpace` |
| `PyText.Contains` | app/parse.py:117 | Python's substring test `sub in s`, with no contract of its own: some index at which `sub` occurs exactly (`OccursAt`) |
| `Extraction.NormalizeDescription` | app/parse.py:82-83 | same length as the text, no `\xa0` left, each `\xa0` becomes a space and every other character is kept |
| `Extraction.StripCurrency` | app/parse.py:84 | every `$` is removed, wherever it occurs, and the other characters keep their order |
| `Extraction.ParseSingleProduct` | app/parse.py:79-90 | a record exists exactly when title, description, price and caption are present and the caption parses. Its fields then follow the per-field rules and the rating is the star count. Otherwise the error is the first failing field, in argument order |
| `Outcomes.MapUntilError` | app/parse.py:96 | a list comprehension whose element function may raise: it succeeds exactly when every element succeeds, giving every result in order. Otherwise it raises the error of the first failing element, and all elements before it succeed |
| `Extraction.GetProducts` | app/parse.py:93-96 | succeeds exactly when every card parses, giving one record per card in document order. Otherwise it fails with the error of the first failing card, and all cards before it parse |
| `Extraction.ReviewCount` | app/parse.py:86-89 | `int(caption.replace(" reviews", ""))`, with no contract of its own. Its properties are in `ReviewCountOfDigits`, `ReviewCountOfDecimal`, `SingularCaptionFails` and `IpadAirCaption` |
| `Extraction.ReviewCountOfDigits` | app/parse.py:86-89 | a caption `<digits> reviews` gives the number the digits spell |
| `Extraction.ReviewCountOfDecimal` | app/parse.py:86-89 | a caption made of `str(n)` and ` reviews` gives back `n` |
| `Extraction.SingularCaptionFails` | app/parse.py:86-89 | the caption `1 review` is not changed by the replacement and `int` rejects it |
| `Extraction.WellFormedCardParses` | app/parse.py:79-90 | a card that has every piece and a `<digits> reviews` caption yields a record with that review count and a rating equal to the (non-negative) star count |
| `Extraction.IpadAirExample` | app/parse.py:79-90 | the "Apple iPad Air" card (`$646.58`, three stars, `41 reviews`, a no-break space in the description) yields the expected record |
| `Extraction.IpadAirCaption` | app/parse.py:86-89 | `41 reviews` gives 41 |
| `Extraction.IpadAirPrice` | app/parse.py:84 | `$646.58` gives `646.58` |
| `Extraction.IpadAirDescription` | app/parse.py:82-83 | the no-break space of the example description becomes a plain space |
| `Products.AsTuple` | app/parse.py:134 | a row has one cell per header entry, and cell `i` is the field named by `TITLE_ROW[i]` |
| `Products.HeaderCells` | app/parse.py:36 | the header has one cell per `TITLE_ROW` entry, the cells are pairwise distinct, and each names a field of every `Product` |
| `Products.ExportRows` | app/parse.py:133-134 | the first row is `TITLE_ROW`, and there is one more row per product, each as wide as the header. The cell in column `j` of the row for product `i` is the field that header cell `j` names, for product `i` |
| `Materialize.Hidden` | app/parse.py:117 | the loop's exit test, `"display: none" in style`, with no contract of its own. `ExpandAll` states the loop's behaviour in terms of it |
| `Materialize.FirstStop` | app/parse.py:117-124 | the least index whose read ends the loop: a timeout, or a style containing `display: none` |
| `Materialize.ExpandAll` | app/parse.py:110-125 | No button: no activation, and the outcome is "no button" exactly then. Initially hidden: zero activations. Otherwise exactly `k` activations, where `k` is the first read that ends the loop. On success the progress count equals the activations, the last style is hidden and every earlier one visible. On a timeout at activation `k`, nothing follows it and progress is `k - 1` |
| `Materialize.GetProductsFromPage` | app/parse.py:110-126 | a reappearance timeout ends the page with no products. Otherwise the result is exactly `get_products` of the rendered cards |
| `Session.EmptyRegistry` | app/parse.py:50 | the registry starts empty and well formed |
| `Session.MetaCall` | app/parse.py:52-56 | `SingletonMeta.__call__` on the registry value, with no contract of its own. Its properties are in `CallTwiceSameInstance`, `CallPreservesWellFormed`, `FailedConstructionStoresNothing` and `CallAfterCloseBuildsAnew` |
| `Session.DeleteEntry` | app/parse.py:76 | `del _instances[type(self)]` on the registry value, with no contract of its own. Its properties are in `CloseRemovesOwnEntry`, `ClosePreservesWellFormed` and `CallAfterCloseBuildsAnew` |
| `Session.CallPreservesWellFormed` | app/parse.py:52-56 | `__call__` keeps every entry built for its own key and counted, and returns an instance of the class it was called on |
| `Session.ClosePreservesWellFormed` | app/parse.py:76 | deleting an entry keeps the registry well formed |
| `Session.CallTwiceSameInstance` | app/parse.py:52-56 | two calls for one class return the identical instance. The map grows only on the first call, which builds exactly one instance if the class was absent |
| `Session.FailedConstructionStoresNothing` | app/parse.py:53-55 | a constructor that raises stores nothing |
| `Session.CloseRemovesOwnEntry` | app/parse.py:76 | `close_driver` removes exactly its own class's entry, leaves every other entry and the counter unchanged, and raises `KeyError` when the entry is absent |
| `Session.CallAfterCloseBuildsAnew` | app/parse.py:53-55 | after `close_driver`, the next call builds an instance distinct from every instance stored before |
| `Session.SingletonMeta.constructor` | app/parse.py:50 | the class attribute starts as an empty map |
| `Session.SingletonMeta.Call` | app/parse.py:52-56 | the in-place update of `_instances` follows `MetaCall` and keeps the registry well formed. A stored instance is returned with the state untouched |
| `Session.SingletonMeta.CloseDriver` | app/parse.py:73-76 | the in-place deletion follows `DeleteEntry`. The map loses exactly the key of the class and the counter is kept |

## Left out

- Browser navigation, the five-second settle delay, the cookie banner click and `find_elements` (app/parse.py:100-108) are foreign browser I/O. The page is an oracle value instead.
- The timing of `WebDriverWait(driver, 5)` is not modelled. Only its two outcomes are: the button is found again, or the wait times out.
- Materialize.ExpandAll: requires that the loop ends (`Settles`). On a page whose button never reports hidden and never times out, the source loops forever, and that case is outside the model.
- HTML parsing and CSS selector matching (BeautifulSoup) are a library outside this model. A card carries the selector results: optional texts and a list of star icons. A missing link and a missing `title` attribute are both `MissingTitle`.
- Extraction.ParseSingleProduct: the price field holds the text after `$` removal. `float()` is floating point and is not modelled, so its `ValueError` on malformed price text is not one of the modelled failures.
- PyText.ParseInt: has no bound on the number of digits. CPython 3.11 and later raise `ValueError` past the default limit of 4300 digits (`sys.int_info.default_max_str_digits`), and the model does not.
- PyText.ParseInt: `int()` also accepts non-ASCII decimal digits (for example Arabic-Indic digits). The model accepts only ASCII `0`-`9`.
- PyText.ReplaceAll: only non-empty patterns are modelled, because the source only replaces fixed non-empty literals.
- File writing, `csv.writer` quoting and the overwrite of existing files (app/parse.py:131-134) are I/O. So is the `str()` rendering of the float price. Only the header and row order are modelled.
- Logging and the `tqdm` progress bar (app/parse.py:39-46 and the log calls) are output only. The progress bar is kept as a counter.
- The URL constants (app/parse.py:18-24) are fixed values from `urljoin`, which computes reference resolution as in section 5.2 of RFC 3986.
- `get_all_products` (app/parse.py:137-155) is orchestration. It pairs the i-th URL with the i-th file name, exports each page in turn, and closes the session once at the end.
- Browser start-up options and `webdriver.Chrome` (app/parse.py:60-67) are reduced to the `engineStarts` flag. `get_driver` (app/parse.py:69-71) only returns the stored driver. `self.driver.close()` (app/parse.py:75) is a foreign call.
