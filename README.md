# ShiftSearch quick-search overlay, modelled in Dafny

ShiftSearch is a content script that puts a keyboard-driven search box over
any web page. Pressing Shift + `:` opens an overlay and indexes the page's
links, buttons and input fields. The overlay is already part of the page
when it indexes, so its own search box is always the last entry. Typing
filters the index by substring. The arrow keys move a selection through the result rows with wraparound.
Enter, or a click on a row, closes the overlay and then activates the chosen
element: links and buttons are clicked, inputs are scrolled into view and
focused. Escape, or a click outside the search container, closes the overlay
without activating anything.

The model follows the script's own structure:

- `text.dfy` (module `Text`): `trim`, ASCII `toLowerCase`, `startsWith`,
  `includes`, and JavaScript's `a || b || c` choice of the first non-empty
  string.
- `indexer.dfy` (module `Indexer`): `findClickableElements`. Page elements
  are records (tag, inner text, href, aria-label, title, placeholder, name,
  id). The three `forEach` callbacks are the functions `LinkEntry`,
  `ButtonEntry` and `InputEntry`. The method keeps the source's three loops
  and is proved equal to the specification function `Index`.
- `search.dfy` (module `Search`): the query normalisation, the filter, and
  the results panel (`Hint`, `NoResults`, or `Rows(count, selected)`) of
  `handleSearchInput`.
- `navigation.dfy` (module `Navigation`): ArrowDown and ArrowUp over `n`
  rendered rows.
- `highlight.dfy` (module `Highlight`): the metacharacter escaping in
  `highlightText`.
- `overlay.dfy` (module `Overlay`): the controller class `QuickSearch`. Its
  fields are the script's module-level state: `shiftPressed`; `overlay`,
  which stands for `searchOverlay`, `searchInput` and `resultsContainer`
  (always set and cleared together); `searchable`; and `filtered`. The event
  handlers are its methods. The field `effects` records, in order, what the
  script does to the page: the overlay shown or removed, a click on an
  element, or an input scrolled into view and focused. `Valid()` is the
  invariant every handler keeps: a closed overlay has an empty index and an
  empty filtered list, an open one shows a panel that agrees with the
  filtered list, and every filtered item is an entry of the index. A client method, `HomeScenario`, replays a complete session
  on a three-element page.

An element reference is the element's position in the page snapshot. The
search box is appended after every page element, so its reference is the
length of the page. `CreateSearchOverlay` indexes `page + [SearchBox]`, and
`SearchBoxIndexed` shows that this is the page's own index followed by one
more input entry, whose text is the box's placeholder. So a query contained
in that placeholder ("page", "search") never yields "No results". Selecting
that entry closes the overlay and then scrolls to and focuses the box that
was just removed. `ScenarioSearchesItself` works this case through. The
browser-facing inputs (the page, the search box's value, whether a click
landed inside the search container) are parameters of the methods.

Three behaviours of the code that are easy to get wrong:

- Typing more narrows the results only when the query so far is non-blank.
  A blank query shows the hint with an empty list, so the next character
  can widen the list. `AppendingNarrows` therefore requires a non-blank
  query, and `BlankQueryThenLetter` gives an example.
- At most 10 rows are rendered (`slice(0, 10)`), whatever the number of
  matches.
- Activating an element does not check that it is still in the page:
  `click()`, `scrollIntoView()` and `focus()` are called unguarded. The
  model emits the action in every case.

## Model

| member | source | states |
|---|---|---|
| `Text.TrimStart` | content.js:248 | the result is no longer than the input and does not start with white space |
| `Text.TrimEnd` | content.js:248 | the result is no longer than the input and does not end with white space |
| `Text.Trim` | content.js:158 | a trimmed string is empty or starts and ends with a non-white character |
| `Text.TrimIsMiddle` | content.js:248 | `trim` keeps a contiguous middle slice; everything cut before and after it is white space |
| `Text.TrimAppend` | content.js:248 | appending text to a string only extends its trimmed form |
| `Text.TrimLowerCommute` | content.js:248 | trimming and lower-casing (`Text.Lower`, the model of `toLowerCase`) can be done in either order |
| `Text.FirstNonEmpty` | content.js:173 | `a \|\| b \|\| c` gives "" exactly when all options are empty, and otherwise the first non-empty option |
| `Text.ContainsIffOccurs` | content.js:258 | `Text.Contains`, the model of `includes`, holds exactly when the query occurs at some offset of the text, where "occurs" is `Text.IsPrefix`, the model of `startsWith`, on a suffix |
| `Text.ContainsPrefixOfQuery` | content.js:258 | a text that contains a query contains every prefix of that query |
| `Indexer.LinkEntry` | content.js:157-168 | the `a[href]` callback: an entry it makes is a link to this element, under an anchor tag, with non-empty text and the element's `href` beneath. `IndexEntryRules` says when an indexed link qualifies, and `LinkQualifies` says that every qualifying anchor is indexed |
| `Indexer.ButtonEntry` | content.js:172-183 | the `button` callback: an entry it makes is a button entry for this element, under a button tag, with non-empty text and the subtitle "Button". `IndexEntryRules` gives the text fallback chain of an indexed button, and `ButtonQualifies` says that every button with a non-empty choice is indexed |
| `Indexer.InputEntry` | content.js:186-197 | the `input, textarea` callback: an entry it makes is an input entry for this element, under an input or textarea tag, with non-empty text and the subtitle "Input field". `IndexEntryRules` gives the text fallback chain of an indexed input, and `InputQualifies` says that every field with a non-empty choice is indexed |
| `Indexer.Index` | content.js:153-199 | the index, which is the link pass followed by the button pass and then the input pass; every entry names an element of the page and has a text; `IndexMembers` and `IndexOrder` say exactly which entries it holds and in what order |
| `Indexer.PassExtend` | content.js:157-197 | a pass over the first n elements ignores the elements after them |
| `Indexer.PassEntries` | content.js:157-197 | every entry of a whole pass names an element of the page and has a text |
| `Indexer.IndexAppendInput` | content.js:186-197 | an input field appended to the page adds its entry, if it has one, at the very end of the index, and leaves the page's own entries as they were |
| `Indexer.FindClickableElements` | content.js:153-200 | the three loops return exactly `Index(page)`: the link pass, then the button pass, then the input pass |
| `Indexer.EntryShape` | content.js:157-197 | each callback's entry has its own kind, its own element and non-empty text; an element kept by one pass is kept by no other |
| `Indexer.PassSound` | content.js:157-197 | each `forEach` pass (`Indexer.Pass`): every entry is its callback's entry for that entry's element, and the entries' elements come in strictly increasing page order |
| `Indexer.PassComplete` | content.js:157-197 | each `forEach` pass (`Indexer.Pass`) holds every entry its callback makes |
| `Indexer.InPass` | content.js:157-197 | an entry found in a pass refers to a page element, has that pass's kind, and is what the callback makes of it |
| `Indexer.IndexMembers` | content.js:153-199 | an item is in the index exactly when its callback makes that item for its element |
| `Indexer.IndexOrder` | content.js:156-199 | links precede buttons, buttons precede inputs, and within one kind the entries follow page order |
| `Indexer.IndexRefsDistinct` | content.js:153-199 | no element is indexed twice |
| `Indexer.IndexEntryRules` | content.js:157-197 | an indexed link is an anchor with an `href` attribute, trimmed non-empty text and a non-empty href not starting with `javascript:`; an indexed button shows its trimmed text, else its aria-label, else its title; an indexed input shows its placeholder, else its name, else its id, else its aria-label |
| `Indexer.LinkQualifies` | content.js:157-168 | every anchor with an `href` attribute, a non-blank text and a non-empty href not starting with `javascript:` is in the index, as a link showing its trimmed text |
| `Indexer.ButtonQualifies` | content.js:172-183 | every button whose trimmed text, aria-label or title is non-empty is in the index, showing the first of them that is non-empty |
| `Indexer.InputQualifies` | content.js:186-197 | every input or textarea whose placeholder, name, id or aria-label is non-empty is in the index, showing the first of them that is non-empty |
| `Search.Normalize` | content.js:248 | the normalised query is no longer than the raw one, is empty or starts and ends with a non-white character, and holds no upper-case ASCII letter; `NormalizeAppend` and `NormalizeIgnoresCase` relate queries |
| `Search.Matches` | content.js:258 | an item matches exactly when the query occurs at some offset of its lower-cased text |
| `Search.Filter` | content.js:257-259 | the filtered list is no longer than the index, and holds only index items that match. `FilterMembers` and `FilterIsSubsequence` complete this to "exactly the matching items, in index order" for a list without repeated items, and `IndexRefsDistinct` makes every index such a list |
| `Search.SearchInput` | content.js:247-296 | blank query: hint and empty list; non-blank query with no match: the "no results" panel; otherwise the filtered list with min(10, its length) rows and row 0 selected |
| `Search.FilterMembers` | content.js:257-259 | the filtered list holds exactly the items whose lower-cased text contains the query |
| `Search.FilterEmptyIff` | content.js:257-264 | the filtered list is empty exactly when no item matches |
| `Search.FilterIsSubsequence` | content.js:257-259 | the filtered list is an order-preserving subsequence of the index |
| `Search.SubsequenceMembers` | content.js:257-259 | every element of a subsequence is an element of the whole sequence |
| `Search.FilterMonotone` | content.js:257-259 | for a longer query that extends a shorter one, the results are a subsequence of the shorter query's results |
| `Search.NormalizeAppend` | content.js:248 | appending to a raw query extends its normalised form |
| `Search.AppendingNarrows` | content.js:248-264 | after a non-blank query, typing more can only narrow the list `handleSearchInput` keeps, and the order is kept |
| `Search.BlankQueryThenLetter` | content.js:250-259 | the blank query " " gives an empty list while " h" gives a match, so narrowing needs a non-blank query |
| `Search.NormalizeIgnoresCase` | content.js:248 | raw queries that differ only in letter case normalise alike |
| `Search.SearchIgnoresCase` | content.js:248-264 | queries that differ only in letter case give the same filtered list and the same panel |
| `Search.RowsInBounds` | content.js:269-272 | every rendered row number picks a filtered item that is in the index and matches the query |
| `Navigation.Down` | content.js:309-319 | ArrowDown: no rows and no selection gives no selection; no selection selects row 0; row i moves to i+1, and the last row wraps to 0; the result is below n |
| `Navigation.Up` | content.js:320-330 | ArrowUp: no selection selects row n-1; row i moves to i-1, and row 0 wraps to n-1; the result is below n |
| `Navigation.UpUndoesDown` | content.js:309-330 | ArrowUp undoes ArrowDown and ArrowDown undoes ArrowUp on a selected row |
| `Navigation.DownTimes` | content.js:309-319 | after any number of ArrowDown presses, a selection is below n |
| `Navigation.DownCycles` | content.js:309-319 | from no selection, k+1 presses of ArrowDown select row k, and n+1 presses wrap back to row 0 |
| `Highlight.EscapeRegExp` | content.js:242 | escaping at least keeps and at most doubles the length, and is empty only for the empty query |
| `Highlight.EscapeIsLiteral` | content.js:242 | the escaped query, read as a pattern, matches exactly the query text |
| `Highlight.UnescapedIsNotLiteral` | content.js:242 | a query holding a bare metacharacter is not a literal pattern, so the escaping is needed |
| `Overlay.Activation` | content.js:340-350 | a link or button entry is clicked, and an input entry is scrolled into view and focused, always on the entry's own element |
| `Overlay.SearchBoxIndexed` | content.js:210-230 | indexing with the overlay appended gives the page's own entries, then one input entry for the search box, with the placeholder as its text |
| `Overlay.QuickSearch.constructor` | content.js:145-150 | the initial state: Shift not pressed, overlay closed, empty index, empty filtered list, no effects |
| `Overlay.QuickSearch.CreateSearchOverlay` | content.js:203-238 | opening shows the hint and leaves the filtered list empty. It indexes the page together with the overlay's own search box: the page's own entries, then the box's entry. It records the overlay shown |
| `Overlay.QuickSearch.Close` | content.js:354-363 | closing resets the overlay, index and filtered list and records one removal; when already closed it changes nothing |
| `Overlay.QuickSearch.NavigateToElement` | content.js:337-351 | the overlay is closed and reset first, then exactly one action follows: a click for a link or button, scroll-and-focus for an input |
| `Overlay.QuickSearch.HandleSearchInput` | content.js:247-296 | the panel and filtered list become those of `SearchInput` on the current index; the index, the Shift flag and the effects are unchanged |
| `Overlay.QuickSearch.HandleKeyNavigation` | content.js:299-334 | Enter with a selected row r closes, then activates `filtered[r]`, which is in bounds and an entry of the index; without a selection Enter changes nothing; ArrowDown and ArrowUp apply `Down` and `Up` to the rendered rows; Escape closes without activating; other keys change nothing |
| `Overlay.QuickSearch.HoverRow` | content.js:285-288 | hovering a row makes it the only selected row |
| `Overlay.QuickSearch.ClickRow` | content.js:284 | clicking a row closes the overlay and then activates that row's filtered item, which is an entry of the index |
| `Overlay.QuickSearch.DocumentKeyDown` | content.js:366-379 | Shift sets the flag. `:` with the flag set opens the overlay only when it is closed, indexing the page with the search box. Otherwise nothing but the flag changes |
| `Overlay.QuickSearch.DocumentKeyUp` | content.js:381-385 | releasing Shift clears the flag and changes nothing else |
| `Overlay.QuickSearch.DocumentClick` | content.js:388-392 | a click outside the search container while open closes without activating anything; any other click changes nothing |
| `Overlay.HomeScenario` | content.js:203-379 | a whole session on the scenario page (Shift, `:`, typing "ho", Enter) shows the overlay, removes it, and then clicks the "Home" link, in that order |
| `Overlay.ScenarioPageIndex` | content.js:153-199 | a page with link "Home", button "Submit" and an input with placeholder "Email" has those three entries, in that order |
| `Overlay.ScenarioIndex` | content.js:223-230 | opening the overlay on that page indexes four entries: the three above, then the search box |
| `Overlay.ScenarioFilter` | content.js:247-259 | on that page the query "ho" leaves exactly the "Home" link |
| `Overlay.ScenarioSearchesItself` | content.js:223-259 | the query "page" matches nothing on the page itself, but it matches the search box, which is then the one row shown, selected |

## Left out

- Style injection and the style text (content.js:1-142): cosmetic only.
- DOM construction, `innerHTML` rendering, icons and subtitles in the markup, and `classList` as the store of the selection. Rows are a count and the selection an optional row number, so at most one row is selected by construction.
- The 10 ms focus of the search input, the 300 ms focus of an activated input, and `scrollIntoView` of a row during arrow navigation. These are timers and browser calls; the model records the first two as the `OverlayShown` and `ScrollIntoViewAndFocus` effects and leaves row scrolling out.
- `preventDefault` on keys. A side effect of it is not modelled either: Shift + `:` typed into the search box reaches the document handler, which cancels it, so a `:` typed while Shift is held never reaches the query.
- The highlight `RegExp` with flags `gi` and the `replace` that wraps matches in a span (content.js:242-243). Only the escaping is modelled.
- Indexer.LinkEntry and Overlay.QuickSearch.CreateSearchOverlay: an element without `innerText` is not modelled, because every `PageElement` carries strings. In an HTML page, `a[href]` also matches an SVG `<a href>`, which has no `innerText`, so `link.innerText.trim()` throws (content.js:158). `createSearchOverlay` then stops at content.js:230. The overlay is already on the page and `searchOverlay` is set, but the input is never focused and its `input` and `keydown` listeners are never attached. The overlay stays open with the hint and reacts to nothing: typing filters nothing, Escape does nothing, and Shift + `:` is ignored because an overlay exists. Only a click outside the search container closes it. The model instead always indexes and shows a working overlay.
- Browser `innerText`, and the UTF-16 code units of JavaScript strings: `string` is a sequence of Unicode scalar values.
- `Text.Lower`: folds only ASCII A-Z, not full Unicode `toLowerCase`; the case-insensitivity lemmas hold for this folding.
- The `closest('.search-container')` hit test (content.js:389). It is the boolean `insideContainer` parameter of `DocumentClick`.
- The `mouseenter` handler clears `selected` on every `.result-item` in the document, including any the host page itself carries. The model clears only the overlay's own rows.
- Resolution of `href` to an absolute URL: `href` is given as the resolved `link.href`.
- Elements removed from the page between indexing and activation: the effect still names the element, as the code does.
