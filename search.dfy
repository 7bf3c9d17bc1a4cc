/**
 * The filter behind `handleSearchInput`: the raw query is trimmed and
 * lower-cased, the index is filtered by case-insensitive substring match,
 * and the results panel shows a hint, a "no results" message, or at most
 * ten rows with the first one selected.
 */
module Search {
  import opened Wrappers
  import opened Text
  import opened Indexer

  /** The number of rows rendered at most (`slice(0, 10)`). */
  const MaxRows: nat := 10

  /** What the results container shows while the overlay is open. */
  datatype Panel =
    | Hint                                     // "Type to search ..."
    | NoResults                                // "No results found"
    | Rows(count: nat, selected: Option<nat>)  // `count` result rows, at most one selected

  /** The filtered list and the panel after one input event. */
  datatype Outcome = Outcome(filtered: seq<Item>, panel: Panel)

  /** `value.trim().toLowerCase()`. */
  function Normalize(raw: string): (r: string)
    ensures |r| <= |raw|
    ensures r == [] || (!IsWhiteSpace(r[0]) && !IsWhiteSpace(r[|r| - 1]))
    ensures forall i :: 0 <= i < |r| ==> !('A' <= r[i] <= 'Z')
  {
    Lower(Trim(raw))
  }

  /** `item.text.toLowerCase().includes(query)`: the query occurs somewhere
      in the lower-cased text. */
  predicate Matches(item: Item, query: string)
    ensures Matches(item, query) <==>
      exists i :: 0 <= i <= |item.text| && IsPrefix(query, Lower(item.text)[i..])
  {
    ContainsIffOccurs(Lower(item.text), query);
    Contains(Lower(item.text), query)
  }

  /** `items.filter(item => Matches(item, query))`. */
  function Filter(items: seq<Item>, query: string): (r: seq<Item>)
    ensures |r| <= |items|
    ensures forall x :: x in r ==> x in items && Matches(x, query)
  {
    if items == [] then []
    else (if Matches(items[0], query) then [items[0]] else []) + Filter(items[1..], query)
  }

  /** `a` is `b` with some elements left out, the rest kept in order. */
  predicate IsSubsequence<T(==)>(a: seq<T>, b: seq<T>)
    decreases |b|
  {
    if b == [] then a == []
    else (a != [] && a[0] == b[0] && IsSubsequence(a[1..], b[1..])) || IsSubsequence(a, b[1..])
  }

  function Min(a: nat, b: nat): nat {
    if a <= b then a else b
  }

  /** `handleSearchInput` on the current index and input value. */
  function SearchInput(index: seq<Item>, raw: string): (r: Outcome)
    ensures r.panel == Hint <==> Normalize(raw) == []
    ensures r.panel == NoResults <==>
      Normalize(raw) != [] && forall it :: it in index ==> !Matches(it, Normalize(raw))
    ensures r.panel == Hint ==> r.filtered == []
    ensures r.panel != Hint ==> r.filtered == Filter(index, Normalize(raw))
    ensures r.panel.Rows? ==>
      r.filtered != [] && 1 <= r.panel.count <= MaxRows &&
      r.panel.count == Min(MaxRows, |r.filtered|) && r.panel.selected == Some(0)
  {
    var query := Normalize(raw);
    if query == [] then Outcome([], Hint)
    else
      var filtered := Filter(index, query);
      FilterEmptyIff(index, query);
      if filtered == [] then Outcome(filtered, NoResults)
      else Outcome(filtered, Rows(Min(MaxRows, |filtered|), Some(0)))
  }

  /** The filter keeps exactly the matching items. */
  lemma {:induction false} FilterMembers(items: seq<Item>, query: string, x: Item)
    ensures x in Filter(items, query) <==> x in items && Matches(x, query)
    decreases |items|
  {
    if items != [] {
      FilterMembers(items[1..], query, x);
      assert items == [items[0]] + items[1..];
    }
  }

  /** Nothing is left after filtering exactly when nothing matches. */
  lemma FilterEmptyIff(items: seq<Item>, query: string)
    ensures Filter(items, query) == [] <==> forall it :: it in items ==> !Matches(it, query)
  {
    if Filter(items, query) != [] {
      FilterMembers(items, query, Filter(items, query)[0]);
    }
    forall it | it in items && Matches(it, query) ensures it in Filter(items, query) {
      FilterMembers(items, query, it);
    }
  }

  /** The filter keeps the original order. */
  lemma {:induction false} FilterIsSubsequence(items: seq<Item>, query: string)
    ensures IsSubsequence(Filter(items, query), items)
    decreases |items|
  {
    if items != [] {
      FilterIsSubsequence(items[1..], query);
      var rest := Filter(items[1..], query);
      if Matches(items[0], query) {
        assert Filter(items, query) == [items[0]] + rest;
        assert ([items[0]] + rest)[1..] == rest;
      } else {
        assert Filter(items, query) == rest;
      }
    }
  }

  /** An element of a subsequence is an element of the whole. */
  lemma {:induction false} SubsequenceMembers<T>(a: seq<T>, b: seq<T>, x: T)
    requires IsSubsequence(a, b)
    requires x in a
    ensures x in b
    decreases |b|
  {
    if a[0] == b[0] && IsSubsequence(a[1..], b[1..]) {
      if x != a[0] { SubsequenceMembers(a[1..], b[1..], x); }
    } else {
      SubsequenceMembers(a, b[1..], x);
    }
  }

  /** A longer query keeps an order-preserving part of a shorter query's results. */
  lemma {:induction false} FilterMonotone(items: seq<Item>, query: string, longer: string)
    requires IsPrefix(query, longer)
    ensures IsSubsequence(Filter(items, longer), Filter(items, query))
    decreases |items|
  {
    if items != [] {
      FilterMonotone(items[1..], query, longer);
      var short, long := Filter(items[1..], query), Filter(items[1..], longer);
      if Matches(items[0], longer) {
        ContainsPrefixOfQuery(Lower(items[0].text), query, longer);
        assert Filter(items, longer) == [items[0]] + long;
        assert Filter(items, query) == [items[0]] + short;
        assert ([items[0]] + long)[1..] == long;
        assert ([items[0]] + short)[1..] == short;
      } else if Matches(items[0], query) {
        assert Filter(items, longer) == long;
        assert Filter(items, query) == [items[0]] + short;
        assert ([items[0]] + short)[1..] == short;
      } else {
        assert Filter(items, longer) == long;
        assert Filter(items, query) == short;
      }
    }
  }

  /** Typing more characters extends the normalised query. */
  lemma NormalizeAppend(raw: string, extra: string)
    ensures IsPrefix(Normalize(raw), Normalize(raw + extra))
  {
    TrimAppend(raw, extra);
    LowerPrefix(Trim(raw), Trim(raw + extra));
  }

  /** Appending characters to a non-blank query can only narrow the list
      `handleSearchInput` keeps, and what is left keeps its order. */
  lemma AppendingNarrows(index: seq<Item>, raw: string, extra: string)
    requires Normalize(raw) != []
    ensures IsSubsequence(SearchInput(index, raw + extra).filtered, SearchInput(index, raw).filtered)
  {
    NormalizeAppend(raw, extra);
    FilterMonotone(index, Normalize(raw), Normalize(raw + extra));
  }

  /** A blank query shows the hint, so typing after it can widen the list: the
      narrowing above needs a non-blank query. */
  lemma BlankQueryThenLetter()
    ensures var index := [Item(0, "Home", "https://example.test/", Link)];
      SearchInput(index, " ").filtered == [] &&
      SearchInput(index, " h").filtered == index
  {
    var index := [Item(0, "Home", "https://example.test/", Link)];
    assert Trim(" h") == "h" by {
      assert TrimStart(" h") == TrimStart("h");
    }
    assert Lower("Home")[..1] == "h";
    assert Matches(index[0], "h");
  }

  /** Queries that differ only in letter case normalise alike. */
  lemma NormalizeIgnoresCase(a: string, b: string)
    requires Lower(a) == Lower(b)
    ensures Normalize(a) == Normalize(b)
  {
    TrimLowerCommute(a);
    TrimLowerCommute(b);
  }

  /** Queries that differ only in letter case ("SAVE" and "save") give the
      same filtered list and the same panel. */
  lemma SearchIgnoresCase(index: seq<Item>, a: string, b: string)
    requires Lower(a) == Lower(b)
    ensures SearchInput(index, a) == SearchInput(index, b)
  {
    NormalizeIgnoresCase(a, b);
  }

  /** Rendering: the rows show the first `count` filtered items, numbered
      0 .. count-1, so every row number picks an item of the filtered list. */
  lemma RowsInBounds(index: seq<Item>, raw: string, row: nat)
    requires SearchInput(index, raw).panel.Rows?
    requires row < SearchInput(index, raw).panel.count
    ensures row < |SearchInput(index, raw).filtered|
    ensures SearchInput(index, raw).filtered[row] in index
    ensures Matches(SearchInput(index, raw).filtered[row], Normalize(raw))
  {
    var r := SearchInput(index, raw);
    FilterMembers(index, Normalize(raw), r.filtered[row]);
  }
}
