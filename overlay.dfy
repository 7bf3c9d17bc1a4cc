/**
 * The overlay controller: the module-level state of the content script
 * (`shiftPressed`, `searchOverlay` with its input and results container,
 * `searchableElements`, `filteredResults`) as the fields of one object,
 * and its event handlers as methods. What the page can observe (the overlay
 * appearing and disappearing, a click on an element, scrolling an input into
 * view and focusing it) is recorded, in order, in `effects`.
 */
module Overlay {
  import opened Wrappers
  import opened Indexer
  import opened Search
  import opened Navigation
  import opened Text

  /** What the script does to the page, in the order it does it. */
  datatype Effect =
    | OverlayShown                     // overlay appended, search input focused
    | OverlayRemoved                   // `searchOverlay.remove()`
    | Click(ref: nat)                  // `element.click()`
    | ScrollIntoViewAndFocus(ref: nat) // `scrollIntoView`, then `focus()` after a delay

  /** The single action activating an entry performs: links and buttons are
      clicked, inputs are scrolled into view and focused. */
  function Activation(item: Item): (r: Effect)
    ensures r == Click(item.ref) <==> item.kind != Input
    ensures r == ScrollIntoViewAndFocus(item.ref) <==> item.kind == Input
  {
    match item.kind
    case Link => Click(item.ref)
    case Button => Click(item.ref)
    case Input => ScrollIntoViewAndFocus(item.ref)
  }

  /** What the results panel and the filtered list agree on: the hint and the
      "no results" message come with an empty list, and the rows show the
      first `min(10, |filtered|)` entries with at most one of them selected. */
  predicate PanelAgrees(panel: Panel, filtered: seq<Item>) {
    match panel
    case Hint => filtered == []
    case NoResults => filtered == []
    case Rows(count, selected) =>
      filtered != [] && count == Min(MaxRows, |filtered|) &&
      (selected.Some? ==> selected.value < count)
  }

  /** The placeholder of the overlay's search box. */
  const SearchPlaceholder: string := "Search links, buttons, and content on this page..."

  /** The overlay's own search box: a text `input` with that placeholder. The
      overlay is appended to the end of the body before the page is indexed,
      so the indexer sees it after every element of the page. */
  const SearchBox: PageElement := PageElement(InputTag, false, "", "", "", "", SearchPlaceholder, "", "")

  /** The entry the indexer makes for the search box at position `ref`. */
  function SearchBoxItem(ref: nat): Item {
    Item(ref, SearchPlaceholder, "Input field", Input)
  }

  /** Indexing the page with the overlay appended gives the page's own
      entries followed by one entry for the search box. */
  lemma SearchBoxIndexed(page: seq<PageElement>)
    ensures Index(page + [SearchBox]) == Index(page) + [SearchBoxItem(|page|)]
  {
    IndexAppendInput(page, SearchBox);
    assert FirstNonEmpty([SearchPlaceholder, "", "", ""]) == SearchPlaceholder;
  }

  class QuickSearch {
    /** Set on Shift keydown, cleared on Shift keyup. */
    var shiftPressed: bool
    /** The overlay with its results panel, or None when closed. */
    var overlay: Option<Panel>
    /** The index taken when the overlay opened. */
    var searchable: seq<Item>
    /** The items matching the current query. */
    var filtered: seq<Item>
    /** Everything done to the page so far. */
    var effects: seq<Effect>

    ghost predicate Valid()
      reads this
    {
      (overlay.None? ==> searchable == [] && filtered == []) &&
      (overlay.Some? ==> PanelAgrees(overlay.value, filtered)) &&
      (forall it :: it in filtered ==> it in searchable)
    }

    /** The script's initial state. */
    constructor ()
      ensures Valid()
      ensures !shiftPressed && overlay == None && searchable == [] && filtered == [] && effects == []
    {
      shiftPressed := false;
      overlay := None;
      searchable := [];
      filtered := [];
      effects := [];
    }

    /** `createSearchOverlay`: shows the overlay with the hint, then takes a
        fresh index of the page with the overlay in it, so the search box is
        its last entry; the filtered list is still the empty one the last
        close left. */
    method CreateSearchOverlay(page: seq<PageElement>)
      requires Valid() && overlay.None?
      modifies this
      ensures Valid()
      ensures overlay == Some(Hint) && searchable == Index(page + [SearchBox]) && filtered == []
      ensures searchable == Index(page) + [SearchBoxItem(|page|)]
      ensures shiftPressed == old(shiftPressed) && effects == old(effects) + [OverlayShown]
    {
      overlay := Some(Hint);
      effects := effects + [OverlayShown];
      searchable := FindClickableElements(page + [SearchBox]);
      SearchBoxIndexed(page);
    }

    /** `closeSearchOverlay`: removes the overlay and forgets the index and the
        results; does nothing when already closed. */
    method Close()
      requires Valid()
      modifies this
      ensures Valid()
      ensures overlay == None && searchable == [] && filtered == []
      ensures shiftPressed == old(shiftPressed)
      ensures effects == old(effects) + if old(overlay).Some? then [OverlayRemoved] else []
    {
      if overlay.Some? {
        effects := effects + [OverlayRemoved];
        overlay := None;
        searchable := [];
        filtered := [];
      }
    }

    /** `navigateToElement`: closes the overlay first, then performs the one
        action the entry's kind calls for. */
    method NavigateToElement(item: Item)
      requires Valid()
      modifies this
      ensures Valid()
      ensures overlay == None && searchable == [] && filtered == []
      ensures shiftPressed == old(shiftPressed)
      ensures effects == old(effects) + (if old(overlay).Some? then [OverlayRemoved] else []) +
                         [Activation(item)]
    {
      Close();
      match item.kind
      case Link => effects := effects + [Click(item.ref)];
      case Button => effects := effects + [Click(item.ref)];
      case Input => effects := effects + [ScrollIntoViewAndFocus(item.ref)];
    }

    /** `handleSearchInput`, given the input's current value. */
    method HandleSearchInput(value: string)
      requires Valid() && overlay.Some?
      modifies this
      ensures Valid()
      ensures overlay == Some(SearchInput(old(searchable), value).panel)
      ensures filtered == SearchInput(old(searchable), value).filtered
      ensures searchable == old(searchable) && shiftPressed == old(shiftPressed)
      ensures effects == old(effects)
    {
      var query := Normalize(value);
      if query == [] {
        overlay := Some(Hint);
        filtered := [];
        return;
      }
      filtered := Filter(searchable, query);
      FilterIsSubsequence(searchable, query);
      forall it | it in filtered ensures it in searchable {
        SubsequenceMembers(filtered, searchable, it);
      }
      if |filtered| == 0 {
        overlay := Some(NoResults);
        return;
      }
      var count := Min(MaxRows, |filtered|);
      overlay := Some(Rows(count, Some(0)));
    }

    /** `handleKeyNavigation`, the search input's keydown handler. */
    method HandleKeyNavigation(key: string)
      requires Valid() && overlay.Some?
      modifies this
      ensures Valid()
      ensures shiftPressed == old(shiftPressed)
      ensures key == "Enter" ==>
        var p := old(overlay).value;
        if p.Rows? && p.selected.Some? && |old(filtered)| > 0 then
          p.selected.value < |old(filtered)| && old(filtered)[p.selected.value] in old(searchable) &&
          overlay == None && searchable == [] && filtered == [] &&
          effects == old(effects) + [OverlayRemoved, Activation(old(filtered)[p.selected.value])]
        else
          overlay == old(overlay) && searchable == old(searchable) &&
          filtered == old(filtered) && effects == old(effects)
      ensures key == "ArrowDown" || key == "ArrowUp" ==>
        var p := old(overlay).value;
        overlay == Some(if p.Rows? then Rows(p.count, if key == "ArrowDown"
                                                      then Down(p.selected, p.count)
                                                      else Up(p.selected, p.count))
                        else p) &&
        searchable == old(searchable) && filtered == old(filtered) && effects == old(effects)
      ensures key == "Escape" ==>
        overlay == None && searchable == [] && filtered == [] &&
        effects == old(effects) + [OverlayRemoved]
      ensures key !in {"Enter", "ArrowDown", "ArrowUp", "Escape"} ==> unchanged(this)
    {
      var panel := overlay.value;
      if key == "Enter" {
        if panel.Rows? && panel.selected.Some? && |filtered| > 0 {
          var index := panel.selected.value;
          NavigateToElement(filtered[index]);
        }
      } else if key == "ArrowDown" {
        if panel.Rows? {
          overlay := Some(Rows(panel.count, Down(panel.selected, panel.count)));
        }
      } else if key == "ArrowUp" {
        if panel.Rows? {
          overlay := Some(Rows(panel.count, Up(panel.selected, panel.count)));
        }
      } else if key == "Escape" {
        Close();
      }
    }

    /** A row's `mouseenter` handler: that row becomes the only selected one. */
    method HoverRow(row: nat)
      requires Valid() && overlay.Some? && overlay.value.Rows? && row < overlay.value.count
      modifies this
      ensures Valid()
      ensures overlay == Some(Rows(old(overlay).value.count, Some(row)))
      ensures searchable == old(searchable) && filtered == old(filtered)
      ensures shiftPressed == old(shiftPressed) && effects == old(effects)
    {
      overlay := Some(Rows(overlay.value.count, Some(row)));
    }

    /** A row's `click` handler: activates the entry that row shows. */
    method ClickRow(row: nat)
      requires Valid() && overlay.Some? && overlay.value.Rows? && row < overlay.value.count
      modifies this
      ensures Valid()
      ensures row < |old(filtered)| && old(filtered)[row] in old(searchable)
      ensures overlay == None && searchable == [] && filtered == []
      ensures shiftPressed == old(shiftPressed)
      ensures effects == old(effects) + [OverlayRemoved, Activation(old(filtered)[row])]
    {
      NavigateToElement(filtered[row]);
    }

    /** The document's keydown handler: tracks Shift, and Shift + `:` opens
        the overlay unless it is already open. */
    method DocumentKeyDown(key: string, page: seq<PageElement>)
      requires Valid()
      modifies this
      ensures Valid()
      ensures shiftPressed == (old(shiftPressed) || key == "Shift")
      ensures if shiftPressed && key == ":" && old(overlay).None? then
          overlay == Some(Hint) && searchable == Index(page + [SearchBox]) && filtered == [] &&
          effects == old(effects) + [OverlayShown]
        else
          overlay == old(overlay) && searchable == old(searchable) &&
          filtered == old(filtered) && effects == old(effects)
    {
      if key == "Shift" {
        shiftPressed := true;
      }
      if shiftPressed && key == ":" {
        if overlay.None? {
          CreateSearchOverlay(page);
        }
      }
    }

    /** The document's keyup handler: releasing Shift clears the flag. */
    method DocumentKeyUp(key: string)
      requires Valid()
      modifies this
      ensures Valid()
      ensures shiftPressed == (old(shiftPressed) && key != "Shift")
      ensures overlay == old(overlay) && searchable == old(searchable)
      ensures filtered == old(filtered) && effects == old(effects)
    {
      if key == "Shift" {
        shiftPressed := false;
      }
    }

    /** The document's click handler: a click outside the search container
        closes the overlay without activating anything. */
    method DocumentClick(insideContainer: bool)
      requires Valid()
      modifies this
      ensures Valid()
      ensures if old(overlay).Some? && !insideContainer then
          overlay == None && searchable == [] && filtered == [] &&
          shiftPressed == old(shiftPressed) && effects == old(effects) + [OverlayRemoved]
        else unchanged(this)
    {
      if overlay.Some? && !insideContainer {
        Close();
      }
    }
  }

  /** A page with a link "Home", a button "Submit" and an input with the
      placeholder "Email". */
  const ScenarioPage: seq<PageElement> := [
    PageElement(Anchor, true, "Home", "https://example.test/home", "", "", "", "", ""),
    PageElement(ButtonTag, false, "Submit", "", "", "", "", "", ""),
    PageElement(InputTag, false, "", "", "", "", "Email", "", "")]

  const HomeItem := Item(0, "Home", "https://example.test/home", Link)
  const SubmitItem := Item(1, "Submit", "Button", Button)
  const EmailItem := Item(2, "Email", "Input field", Input)

  /** On the scenario page, Shift + `:` opens the overlay, typing "ho" leaves
      only the link, and Enter closes the overlay and then clicks the link. */
  method HomeScenario() returns (log: seq<Effect>)
    ensures log == [OverlayShown, OverlayRemoved, Click(0)]
  {
    var qs := new QuickSearch();
    qs.DocumentKeyDown("Shift", ScenarioPage);
    qs.DocumentKeyDown(":", ScenarioPage);
    assert qs.overlay == Some(Hint);
    qs.HandleSearchInput("ho");
    ScenarioFilter();
    assert qs.filtered == [HomeItem];
    assert qs.overlay == Some(Rows(1, Some(0)));
    qs.HandleKeyNavigation("Enter");
    log := qs.effects;
  }

  lemma ScenarioLinks()
    ensures Pass(ScenarioPage, LinkEntry, |ScenarioPage|) == [HomeItem]
  {
    var page := ScenarioPage;
    assert Trim("Home") == "Home" by {
      assert TrimStart("Home") == "Home";
      assert TrimEnd("Home") == "Home";
    }
    assert !IsPrefix("javascript:", "https://example.test/home") by {
      assert "https://example.test/home"[..11][0] == 'h';
    }
    assert LinkEntry(page[0], 0) == Some(HomeItem);
    assert Pass(page, LinkEntry, 1) == [HomeItem];
    assert Pass(page, LinkEntry, 2) == [HomeItem];
  }

  lemma ScenarioButtons()
    ensures Pass(ScenarioPage, ButtonEntry, |ScenarioPage|) == [SubmitItem]
  {
    var page := ScenarioPage;
    assert Trim("Submit") == "Submit" by {
      assert TrimStart("Submit") == "Submit";
      assert TrimEnd("Submit") == "Submit";
    }
    assert FirstNonEmpty(["Submit", "", ""]) == "Submit";
    assert ButtonEntry(page[1], 1) == Some(SubmitItem);
    assert Pass(page, ButtonEntry, 1) == [];
    assert Pass(page, ButtonEntry, 2) == [SubmitItem];
  }

  lemma ScenarioInputs()
    ensures Pass(ScenarioPage, InputEntry, |ScenarioPage|) == [EmailItem]
  {
    var page := ScenarioPage;
    assert FirstNonEmpty(["Email", "", "", ""]) == "Email";
    assert InputEntry(page[2], 2) == Some(EmailItem);
    assert Pass(page, InputEntry, 1) == [];
    assert Pass(page, InputEntry, 2) == [];
  }

  /** The page's own entries: the link, the button, the input. */
  lemma ScenarioPageIndex()
    ensures Index(ScenarioPage) == [HomeItem, SubmitItem, EmailItem]
  {
    ScenarioLinks();
    ScenarioButtons();
    ScenarioInputs();
  }

  /** What opening the overlay on the scenario page indexes: the link, the
      button, the input, and the overlay's own search box. */
  lemma ScenarioIndex()
    ensures Index(ScenarioPage + [SearchBox]) == [HomeItem, SubmitItem, EmailItem, SearchBoxItem(3)]
  {
    ScenarioPageIndex();
    SearchBoxIndexed(ScenarioPage);
  }

  /** Typing "ho" leaves the link alone. */
  lemma ScenarioFilter()
    ensures SearchInput(Index(ScenarioPage + [SearchBox]), "ho").filtered == [HomeItem]
  {
    ScenarioIndex();
    ScenarioFilterHo();
  }

  lemma ScenarioFilterHo()
    ensures SearchInput([HomeItem, SubmitItem, EmailItem, SearchBoxItem(3)], "ho").filtered == [HomeItem]
  {
    ScenarioQuery("ho");
    ScenarioHomeMatches();
    LacksPair("Submit", "ho");
    LacksPair("Email", "ho");
    PlaceholderLacksHo();
    LacksPair(SearchPlaceholder, "ho");
    var box := SearchBoxItem(3);
    assert Filter([box], "ho") == [];
    assert Filter([EmailItem, box], "ho") == [];
    assert Filter([SubmitItem, EmailItem, box], "ho") == [];
  }

  /** Typing "page" matches nothing on the page itself, but it matches the
      search box's placeholder, so the overlay lists its own input. */
  lemma ScenarioSearchesItself()
    ensures Filter(Index(ScenarioPage), "page") == []
    ensures SearchInput(Index(ScenarioPage + [SearchBox]), "page") ==
      Outcome([SearchBoxItem(3)], Rows(1, Some(0)))
  {
    ScenarioFilterPage();
    ScenarioPageIndex();
    SearchPageOutcome();
  }

  lemma SearchPageOutcome()
    ensures SearchInput(Index(ScenarioPage + [SearchBox]), "page") ==
      Outcome([SearchBoxItem(3)], Rows(1, Some(0)))
  {
    ScenarioIndex();
    SearchPageEntries();
  }

  lemma SearchPageEntries()
    ensures SearchInput([HomeItem, SubmitItem, EmailItem, SearchBoxItem(3)], "page") ==
      Outcome([SearchBoxItem(3)], Rows(1, Some(0)))
  {
    ScenarioQuery("page");
    ScenarioFilterPage();
  }

  lemma ScenarioFilterPage()
    ensures Filter([HomeItem, SubmitItem, EmailItem], "page") == []
    ensures Filter([HomeItem, SubmitItem, EmailItem, SearchBoxItem(3)], "page") == [SearchBoxItem(3)]
  {
    ScenarioLacksPage();
    BoxMatchesPage();
    var box := SearchBoxItem(3);
    assert Filter([EmailItem], "page") == [];
    assert Filter([SubmitItem, EmailItem], "page") == [];
    assert Filter([box], "page") == [box];
    assert Filter([EmailItem, box], "page") == [box];
    assert Filter([SubmitItem, EmailItem, box], "page") == [box];
  }

  lemma ScenarioLacksPage()
    ensures !Matches(HomeItem, "page") && !Matches(SubmitItem, "page") && !Matches(EmailItem, "page")
  {
    LacksPair("Home", "page");
    LacksPair("Submit", "page");
    LacksPair("Email", "page");
  }

  /** "page" occurs at offset 43 of the placeholder. */
  lemma BoxMatchesPage()
    ensures Matches(SearchBoxItem(3), "page")
  {
    var t := Lower(SearchPlaceholder);
    assert t[43] == 'p' && t[44] == 'a' && t[45] == 'g' && t[46] == 'e';
    assert IsPrefix("page", t[43..]);
  }

  /** A trimmed lower-case query normalises to itself. */
  lemma ScenarioQuery(q: string)
    requires q != [] && !IsWhiteSpace(q[0]) && !IsWhiteSpace(q[|q| - 1])
    requires forall i :: 0 <= i < |q| ==> 'a' <= q[i] <= 'z'
    ensures Normalize(q) == q
  {
    assert TrimStart(q) == q;
    assert TrimEnd(q) == q;
    assert Lower(q) == q;
  }

  lemma ScenarioHomeMatches()
    ensures Matches(HomeItem, "ho")
  {
    assert Lower("Home") == "home";
    assert IsPrefix("ho", "home");
  }

  /** Nowhere in `text` does a character that lower-cases to `a` stand
      right before one that lower-cases to `b`. */
  predicate NoAdjacent(text: string, a: char, b: char) {
    forall i :: 0 <= i < |text| - 1 ==> LowerChar(text[i]) != a || LowerChar(text[i + 1]) != b
  }

  /** Two texts without the pair, joined where the pair does not form. */
  lemma NoAdjacentAppend(s: string, t: string, a: char, b: char)
    requires NoAdjacent(s, a, b) && NoAdjacent(t, a, b)
    requires s == [] || t == [] || LowerChar(s[|s| - 1]) != a || LowerChar(t[0]) != b
    ensures NoAdjacent(s + t, a, b)
  {
    forall i | 0 <= i < |s + t| - 1
      ensures LowerChar((s + t)[i]) != a || LowerChar((s + t)[i + 1]) != b
    {
      if i + 1 < |s| {
        assert (s + t)[i] == s[i] && (s + t)[i + 1] == s[i + 1];
      } else if i + 1 == |s| {
        assert (s + t)[i] == s[|s| - 1] && (s + t)[i + 1] == t[0];
      } else {
        assert (s + t)[i] == t[i - |s|] && (s + t)[i + 1] == t[i - |s| + 1];
      }
    }
  }

  /** The search box's placeholder has no "ho" in it. */
  lemma PlaceholderLacksHo()
    ensures NoAdjacent(SearchPlaceholder, 'h', 'o')
  {
    var first, second := "Search links, buttons, ", "and content on this page...";
    assert SearchPlaceholder == first + second;
    PlaceholderPartsLackHo();
    NoAdjacentAppend(first, second, 'h', 'o');
  }

  lemma PlaceholderPartsLackHo()
    ensures NoAdjacent("Search links, buttons, ", 'h', 'o')
    ensures NoAdjacent("and content on this page...", 'h', 'o')
  {
  }

  /** A text in which the first two characters of `q` never stand side by
      side, in either case, does not contain `q`. */
  lemma LacksPair(text: string, q: string)
    requires 2 <= |q|
    requires NoAdjacent(text, q[0], q[1])
    ensures !Contains(Lower(text), q)
  {
    ContainsIffOccurs(Lower(text), q);
    forall i | 0 <= i <= |text| ensures !IsPrefix(q, Lower(text)[i..]) {
      if i < |text| - 1 {
        var rest := Lower(text)[i..];
        assert rest[0] == LowerChar(text[i]) && rest[1] == LowerChar(text[i + 1]);
      }
    }
  }
}
