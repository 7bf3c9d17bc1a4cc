/**
 * The element indexer (`findClickableElements`): three passes over the
 * page, one per selector, collecting the links, buttons and input fields
 * that have something to show.
 */
module Indexer {
  import opened Wrappers
  import opened Text

  /** What the three selectors `a[href]`, `button` and `input, textarea` look at. */
  datatype Tag = Anchor | ButtonTag | InputTag | TextAreaTag | OtherTag

  /**
   * A page element as the indexer reads it. An absent attribute is "".
   * `hasHref` says whether the anchor carries an `href` attribute;
   * `href` is the resolved `link.href` property.
   */
  datatype PageElement = PageElement(
    tag: Tag,
    hasHref: bool,
    innerText: string,
    href: string,
    ariaLabel: string,
    title: string,
    placeholder: string,
    name: string,
    id: string)

  datatype Kind = Link | Button | Input

  /** A searchable entry. `ref` is the element's position in the page,
      standing for the reference to the live element. */
  datatype Item = Item(ref: nat, text: string, subtitle: string, kind: Kind)

  /** The `a[href]` callback: a link with text and a destination that is not
      a script pseudo-link, shown by its text with its destination beneath. */
  function LinkEntry(link: PageElement, ref: nat): (r: Option<Item>)
    ensures r.Some? ==>
      link.tag == Anchor && r.value.ref == ref && r.value.kind == Link &&
      r.value.text != [] && r.value.subtitle == link.href
  {
    if link.tag == Anchor && link.hasHref then
      var text := Trim(link.innerText);
      var href := link.href;
      if text != [] && href != [] && !IsPrefix("javascript:", href)
      then Some(Item(ref, text, href, Link))
      else None
    else None
  }

  /** The `button` callback: shown by its text, or failing that its
      accessible label, or failing that its title. */
  function ButtonEntry(button: PageElement, ref: nat): (r: Option<Item>)
    ensures r.Some? ==>
      button.tag == ButtonTag && r.value.ref == ref && r.value.kind == Button &&
      r.value.text != [] && r.value.subtitle == "Button"
  {
    if button.tag == ButtonTag then
      var text := FirstNonEmpty([Trim(button.innerText), button.ariaLabel, button.title]);
      if text != [] then Some(Item(ref, text, "Button", Button)) else None
    else None
  }

  /** The `input, textarea` callback: shown by its placeholder, or failing
      that its name, its id, or its accessible label. */
  function InputEntry(input: PageElement, ref: nat): (r: Option<Item>)
    ensures r.Some? ==>
      (input.tag == InputTag || input.tag == TextAreaTag) && r.value.ref == ref &&
      r.value.kind == Input && r.value.text != [] && r.value.subtitle == "Input field"
  {
    if input.tag == InputTag || input.tag == TextAreaTag then
      var text := FirstNonEmpty([input.placeholder, input.name, input.id, input.ariaLabel]);
      if text != [] then Some(Item(ref, text, "Input field", Input)) else None
    else None
  }

  /** The callback of the pass for `kind`. */
  function EntryOf(kind: Kind): (PageElement, nat) -> Option<Item> {
    match kind
    case Link => LinkEntry
    case Button => ButtonEntry
    case Input => InputEntry
  }

  /** What a pass with callback `entry` has collected after the first `n` elements. */
  function Pass(page: seq<PageElement>, entry: (PageElement, nat) -> Option<Item>, n: nat): seq<Item>
    requires n <= |page|
  {
    if n == 0 then []
    else
      var c := entry(page[n - 1], n - 1);
      Pass(page, entry, n - 1) + if c.Some? then [c.value] else []
  }

  /** The whole index: all links, then all buttons, then all inputs. */
  function Index(page: seq<PageElement>): (r: seq<Item>)
    ensures forall it :: it in r ==> it.ref < |page| && it.text != []
  {
    PassEntries(page, Link);
    PassEntries(page, Button);
    PassEntries(page, Input);
    Pass(page, LinkEntry, |page|) + Pass(page, ButtonEntry, |page|) + Pass(page, InputEntry, |page|)
  }

  function Rank(kind: Kind): nat {
    match kind
    case Link => 0
    case Button => 1
    case Input => 2
  }

  /** `findClickableElements`: one loop per selector, pushing each entry. */
  method FindClickableElements(page: seq<PageElement>) returns (elements: seq<Item>)
    ensures elements == Index(page)
  {
    elements := [];
    var i := 0;
    while i < |page|
      invariant 0 <= i <= |page|
      invariant elements == Pass(page, LinkEntry, i)
    {
      var entry := LinkEntry(page[i], i);
      if entry.Some? {
        elements := elements + [entry.value];
      }
      i := i + 1;
    }
    var links := elements;
    i := 0;
    while i < |page|
      invariant 0 <= i <= |page|
      invariant elements == links + Pass(page, ButtonEntry, i)
    {
      var entry := ButtonEntry(page[i], i);
      if entry.Some? {
        elements := elements + [entry.value];
      }
      i := i + 1;
    }
    var linksAndButtons := elements;
    i := 0;
    while i < |page|
      invariant 0 <= i <= |page|
      invariant elements == linksAndButtons + Pass(page, InputEntry, i)
    {
      var entry := InputEntry(page[i], i);
      if entry.Some? {
        elements := elements + [entry.value];
      }
      i := i + 1;
    }
  }

  /** Each callback makes an entry of its own kind, for the element it is
      given, with a non-empty text; and an element is kept by at most one pass. */
  lemma EntryShape(kind: Kind, e: PageElement, ref: nat)
    ensures EntryOf(kind)(e, ref).Some? ==>
      var it := EntryOf(kind)(e, ref).value;
      it.kind == kind && it.ref == ref && it.text != []
    ensures forall other: Kind :: other != kind && EntryOf(kind)(e, ref).Some? ==>
      EntryOf(other)(e, ref).None?
  {
  }

  /** Every entry of a pass comes from the callback applied to its own
      element, and the elements appear in page order, each at most once. */
  lemma {:induction false} PassSound(page: seq<PageElement>, kind: Kind, n: nat)
    requires n <= |page|
    ensures forall j :: 0 <= j < |Pass(page, EntryOf(kind), n)| ==>
      Pass(page, EntryOf(kind), n)[j].ref < n &&
      EntryOf(kind)(page[Pass(page, EntryOf(kind), n)[j].ref], Pass(page, EntryOf(kind), n)[j].ref)
        == Some(Pass(page, EntryOf(kind), n)[j])
    ensures forall i, j :: 0 <= i < j < |Pass(page, EntryOf(kind), n)| ==>
      Pass(page, EntryOf(kind), n)[i].ref < Pass(page, EntryOf(kind), n)[j].ref
  {
    if n > 0 {
      PassSound(page, kind, n - 1);
      var prev := Pass(page, EntryOf(kind), n - 1);
      var c := EntryOf(kind)(page[n - 1], n - 1);
      if c.Some? {
        EntryShape(kind, page[n - 1], n - 1);
        var cur := Pass(page, EntryOf(kind), n);
        assert cur == prev + [c.value];
        assert forall j :: 0 <= j < |prev| ==> cur[j] == prev[j];
      }
    }
  }

  /** Every element among the first `n` that the callback keeps is in the pass. */
  lemma {:induction false} PassComplete(page: seq<PageElement>, kind: Kind, n: nat, k: nat)
    requires k < n <= |page|
    requires EntryOf(kind)(page[k], k).Some?
    ensures EntryOf(kind)(page[k], k).value in Pass(page, EntryOf(kind), n)
  {
    if k < n - 1 {
      PassComplete(page, kind, n - 1, k);
    }
  }

  /** An entry found in the pass for `kind` is an entry of that kind for its element. */
  lemma InPass(page: seq<PageElement>, kind: Kind, it: Item)
    requires it in Pass(page, EntryOf(kind), |page|)
    ensures it.ref < |page| && it.kind == kind && EntryOf(kind)(page[it.ref], it.ref) == Some(it)
  {
    PassSound(page, kind, |page|);
    EntryShape(kind, page[it.ref], it.ref);
  }

  /** Every entry of a whole pass names an element of the page and has a text. */
  lemma PassEntries(page: seq<PageElement>, kind: Kind)
    ensures forall it :: it in Pass(page, EntryOf(kind), |page|) ==> it.ref < |page| && it.text != []
  {
    forall it | it in Pass(page, EntryOf(kind), |page|)
      ensures it.ref < |page| && it.text != []
    {
      InPass(page, kind, it);
      EntryShape(kind, page[it.ref], it.ref);
    }
  }

  /** The index holds exactly the entries the callbacks make for the page's elements. */
  lemma IndexMembers(page: seq<PageElement>, it: Item)
    ensures it in Index(page) <==>
      it.ref < |page| && EntryOf(it.kind)(page[it.ref], it.ref) == Some(it)
  {
    var n := |page|;
    if it in Index(page) {
      if it in Pass(page, LinkEntry, n) {
        InPass(page, Link, it);
      } else if it in Pass(page, ButtonEntry, n) {
        InPass(page, Button, it);
      } else {
        InPass(page, Input, it);
      }
    }
    if it.ref < n && EntryOf(it.kind)(page[it.ref], it.ref) == Some(it) {
      PassComplete(page, it.kind, n, it.ref);
    }
  }

  /** Links come before buttons, buttons before inputs, and within one kind
      the entries follow page order. */
  lemma IndexOrder(page: seq<PageElement>, i: nat, j: nat)
    requires i < j < |Index(page)|
    ensures Rank(Index(page)[i].kind) < Rank(Index(page)[j].kind) ||
            (Index(page)[i].kind == Index(page)[j].kind && Index(page)[i].ref < Index(page)[j].ref)
  {
    var n := |page|;
    var links, buttons, inputs := Pass(page, LinkEntry, n), Pass(page, ButtonEntry, n), Pass(page, InputEntry, n);
    var all := Index(page);
    assert all == links + buttons + inputs;
    var a, b := all[i], all[j];
    if j < |links| {
      assert a == links[i] && b == links[j];
      PassSound(page, Link, n);
      InPass(page, Link, a);
      InPass(page, Link, b);
    } else if j < |links| + |buttons| {
      assert b == buttons[j - |links|];
      InPass(page, Button, b);
      if i >= |links| {
        assert a == buttons[i - |links|];
        PassSound(page, Button, n);
        InPass(page, Button, a);
      } else {
        assert a == links[i];
        InPass(page, Link, a);
      }
    } else {
      assert b == inputs[j - |links| - |buttons|];
      InPass(page, Input, b);
      if i >= |links| + |buttons| {
        assert a == inputs[i - |links| - |buttons|];
        PassSound(page, Input, n);
        InPass(page, Input, a);
      } else if i >= |links| {
        assert a == buttons[i - |links|];
        InPass(page, Button, a);
      } else {
        assert a == links[i];
        InPass(page, Link, a);
      }
    }
  }

  /** No element is indexed twice. */
  lemma IndexRefsDistinct(page: seq<PageElement>, i: nat, j: nat)
    requires i < j < |Index(page)|
    ensures Index(page)[i].ref != Index(page)[j].ref
  {
    var all := Index(page);
    IndexOrder(page, i, j);
    IndexMembers(page, all[i]);
    IndexMembers(page, all[j]);
    if all[i].ref == all[j].ref {
      EntryShape(all[i].kind, page[all[i].ref], all[i].ref);
    }
  }

  /** What each kind of entry says about its element: a link has non-empty
      text and a destination that is not a script pseudo-link; a button shows
      its text, else its accessible label, else its title; an input shows its
      placeholder, else its name, else its id, else its accessible label. */
  lemma IndexEntryRules(page: seq<PageElement>, it: Item)
    requires it in Index(page)
    ensures it.ref < |page| && it.text != []
    ensures it.kind == Link ==>
      page[it.ref].tag == Anchor && page[it.ref].hasHref && it.text == Trim(page[it.ref].innerText) &&
      it.subtitle == page[it.ref].href && page[it.ref].href != [] &&
      !IsPrefix("javascript:", page[it.ref].href)
    ensures it.kind == Button ==>
      page[it.ref].tag == ButtonTag &&
      it.text == (if Trim(page[it.ref].innerText) != [] then Trim(page[it.ref].innerText)
                  else if page[it.ref].ariaLabel != [] then page[it.ref].ariaLabel
                  else page[it.ref].title)
    ensures it.kind == Input ==>
      (page[it.ref].tag == InputTag || page[it.ref].tag == TextAreaTag) &&
      it.text == (if page[it.ref].placeholder != [] then page[it.ref].placeholder
                  else if page[it.ref].name != [] then page[it.ref].name
                  else if page[it.ref].id != [] then page[it.ref].id
                  else page[it.ref].ariaLabel)
  {
    IndexMembers(page, it);
    var e := page[it.ref];
    if it.kind == Button {
      var opts := [Trim(e.innerText), e.ariaLabel, e.title];
      var i :| 0 <= i < |opts| && opts[i] == it.text && forall j :: 0 <= j < i ==> opts[j] == [];
      assert i > 0 ==> opts[0] == [];
      assert i > 1 ==> opts[1] == [];
    } else if it.kind == Input {
      var opts := [e.placeholder, e.name, e.id, e.ariaLabel];
      var i :| 0 <= i < |opts| && opts[i] == it.text && forall j :: 0 <= j < i ==> opts[j] == [];
      assert i > 0 ==> opts[0] == [];
      assert i > 1 ==> opts[1] == [];
      assert i > 2 ==> opts[2] == [];
    }
  }

  /** Every anchor with an `href`, a non-blank text and a destination that
      is not a script pseudo-link is indexed as a link. */
  lemma LinkQualifies(page: seq<PageElement>, k: nat)
    requires k < |page| && page[k].tag == Anchor && page[k].hasHref
    requires Trim(page[k].innerText) != [] && page[k].href != []
    requires !IsPrefix("javascript:", page[k].href)
    ensures Item(k, Trim(page[k].innerText), page[k].href, Link) in Index(page)
  {
    var it := Item(k, Trim(page[k].innerText), page[k].href, Link);
    assert LinkEntry(page[k], k) == Some(it);
    IndexMembers(page, it);
  }

  /** Every button with a non-blank text, an accessible label or a title is
      indexed, shown by the first of them that is not empty. */
  lemma ButtonQualifies(page: seq<PageElement>, k: nat)
    requires k < |page| && page[k].tag == ButtonTag
    requires Trim(page[k].innerText) != [] || page[k].ariaLabel != [] || page[k].title != []
    ensures Item(k, FirstNonEmpty([Trim(page[k].innerText), page[k].ariaLabel, page[k].title]),
                 "Button", Button) in Index(page)
  {
    var e := page[k];
    var opts := [Trim(e.innerText), e.ariaLabel, e.title];
    assert opts[0] != [] || opts[1] != [] || opts[2] != [];
    var it := Item(k, FirstNonEmpty(opts), "Button", Button);
    assert ButtonEntry(e, k) == Some(it);
    IndexMembers(page, it);
  }

  /** Every input or textarea with a placeholder, a name, an id or an
      accessible label is indexed, shown by the first of them that is not empty. */
  lemma InputQualifies(page: seq<PageElement>, k: nat)
    requires k < |page| && (page[k].tag == InputTag || page[k].tag == TextAreaTag)
    requires page[k].placeholder != [] || page[k].name != [] || page[k].id != [] || page[k].ariaLabel != []
    ensures Item(k, FirstNonEmpty([page[k].placeholder, page[k].name, page[k].id, page[k].ariaLabel]),
                 "Input field", Input) in Index(page)
  {
    var e := page[k];
    var opts := [e.placeholder, e.name, e.id, e.ariaLabel];
    assert opts[0] != [] || opts[1] != [] || opts[2] != [] || opts[3] != [];
    var it := Item(k, FirstNonEmpty(opts), "Input field", Input);
    assert InputEntry(e, k) == Some(it);
    IndexMembers(page, it);
  }

  /** A pass over the first `n` elements does not look at the elements after them. */
  lemma {:induction false} PassExtend(page: seq<PageElement>, extra: seq<PageElement>,
                                      entry: (PageElement, nat) -> Option<Item>, n: nat)
    requires n <= |page|
    ensures Pass(page + extra, entry, n) == Pass(page, entry, n)
  {
    if n > 0 {
      PassExtend(page, extra, entry, n - 1);
      assert (page + extra)[n - 1] == page[n - 1];
    }
  }

  /** Adding an input field at the end of the page adds its entry, if it has
      one, at the end of the index; the entries of the page itself stay. */
  lemma IndexAppendInput(page: seq<PageElement>, e: PageElement)
    requires e.tag == InputTag || e.tag == TextAreaTag
    ensures Index(page + [e]) ==
      Index(page) + if InputEntry(e, |page|).Some? then [InputEntry(e, |page|).value] else []
  {
    var extended, n := page + [e], |page|;
    PassExtend(page, [e], LinkEntry, n);
    PassExtend(page, [e], ButtonEntry, n);
    PassExtend(page, [e], InputEntry, n);
    assert extended[n] == e;
    assert Pass(extended, LinkEntry, n + 1) == Pass(page, LinkEntry, n);
    assert Pass(extended, ButtonEntry, n + 1) == Pass(page, ButtonEntry, n);
  }
}
