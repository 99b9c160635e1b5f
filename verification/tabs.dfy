/**
 The tab links. The page is a document: a sequence of elements in document
 order. Every element carrying `tabs-link` becomes a tab link; each link reads
 its `data-tab` key and looks up the first `tabs-item` element with the same
 key. Clicking a link deselects every link and selects the clicked one. The
 panel side is a stub: a `TabItem` keeps nothing and its `select` does
 nothing, so panels are never touched.
 */
module Tabs {
  import opened Dom

  const LinkClass := "tabs-link"
  const SelectedClass := "tabs-link-selected"
  const ItemClass := "tabs-item"

  /** The elements of the page, in document order. */
  type Document = seq<Element>

  /** The panel component: its constructor stores nothing. */
  datatype TabItem = TabItem

  /**
   A tab link: the index of its element in the document, the `data-tab`
   value it read, the index of the panel element its selector found, if any,
   and its panel component.
   */
  datatype TabLink = TabLink(element: nat, data: Option<string>, itemElement: Option<nat>, tabItem: TabItem)

  predicate IsLink(e: Element) {
    LinkClass in e.classList
  }

  predicate IsSelected(e: Element) {
    SelectedClass in e.classList
  }

  /** The key as it appears in the link's selector: a missing attribute is interpolated as the text "undefined". */
  function SelectorKey(data: Option<string>): string {
    match data
    case Some(key) => key
    case None => "undefined"
  }

  /** `e` matches `.tabs-item[data-tab="key"]`. */
  predicate MatchesItem(e: Element, key: string) {
    ItemClass in e.classList && e.dataTab == Some(key)
  }

  /** `querySelector` from `from` on: the first element matching `.tabs-item[data-tab="key"]`, if any. */
  function FindItemFrom(doc: Document, key: string, from: nat): (r: Option<nat>)
    requires from <= |doc|
    ensures r.None? ==> forall j :: from <= j < |doc| ==> !MatchesItem(doc[j], key)
    ensures r.Some? ==>
              && from <= r.value < |doc|
              && MatchesItem(doc[r.value], key)
              && forall j :: from <= j < r.value ==> !MatchesItem(doc[j], key)
    decreases |doc| - from
  {
    if from == |doc| then None
    else if MatchesItem(doc[from], key) then Some(from)
    else FindItemFrom(doc, key, from + 1)
  }

  /**
   The `TabLink` constructor for element `i`: read the key, pair with the
   first matching panel. Construction succeeds whether or not one matches.
   */
  function NewTabLink(doc: Document, i: nat): (t: TabLink)
    requires i < |doc|
    ensures t.element == i && t.data == doc[i].dataTab
    ensures t.itemElement.None? <==>
              forall j :: 0 <= j < |doc| ==> !MatchesItem(doc[j], SelectorKey(doc[i].dataTab))
    ensures t.itemElement.Some? ==>
              && t.itemElement.value < |doc|
              && MatchesItem(doc[t.itemElement.value], SelectorKey(doc[i].dataTab))
              && forall j :: 0 <= j < t.itemElement.value ==> !MatchesItem(doc[j], SelectorKey(doc[i].dataTab))
  {
    var data := doc[i].dataTab;
    TabLink(i, data, FindItemFrom(doc, SelectorKey(data), 0), TabItem)
  }

  /** The indices, from `from` on and in document order, of the elements `querySelectorAll('.tabs-link')` returns. */
  function LinkIndicesFrom(doc: Document, from: nat): (r: seq<nat>)
    requires from <= |doc|
    ensures forall k :: 0 <= k < |r| ==> from <= r[k] < |doc| && IsLink(doc[r[k]])
    ensures forall k, l :: 0 <= k < l < |r| ==> r[k] < r[l]
    ensures forall j :: from <= j < |doc| && IsLink(doc[j]) ==> j in r
    decreases |doc| - from
  {
    if from == |doc| then []
    else if IsLink(doc[from]) then [from] + LinkIndicesFrom(doc, from + 1)
    else LinkIndicesFrom(doc, from + 1)
  }

  /** The top-level list: one `TabLink` per `.tabs-link` element, in document order. */
  function BuildLinks(doc: Document): (links: seq<TabLink>)
    ensures forall k :: 0 <= k < |links| ==>
              links[k].element < |doc| && IsLink(doc[links[k].element])
              && links[k] == NewTabLink(doc, links[k].element)
    ensures forall k, l :: 0 <= k < l < |links| ==> links[k].element < links[l].element
    ensures forall j :: 0 <= j < |doc| && IsLink(doc[j]) ==> exists k :: 0 <= k < |links| && links[k].element == j
  {
    var indices := LinkIndicesFrom(doc, 0);
    var links := seq(|indices|, k requires 0 <= k < |indices| => NewTabLink(doc, indices[k]));
    assert forall k :: 0 <= k < |links| ==> links[k].element == indices[k];
    links
  }

  /** `TabItem.select`: an empty stub. */
  function SelectItem(item: TabItem, doc: Document): Document {
    doc
  }

  /** Remove `tabs-link-selected` from every `.tabs-link` element. */
  function ClearLinks(doc: Document): Document {
    seq(|doc|, j requires 0 <= j < |doc| =>
      if IsLink(doc[j]) then doc[j].(classList := doc[j].classList - {SelectedClass}) else doc[j])
  }

  /**
   `TabLink.select`: deselect every link, select this one, then call the
   panel's `select`, which does nothing.
   */
  function Select(doc: Document, link: TabLink): (r: Document)
    requires link.element < |doc|
    ensures |r| == |doc|
    ensures IsSelected(r[link.element])
    ensures forall j :: 0 <= j < |r| && j != link.element && IsLink(doc[j]) ==> !IsSelected(r[j])
    ensures forall j :: 0 <= j < |r| && j != link.element && !IsLink(doc[j]) ==> r[j] == doc[j]
    ensures forall j :: 0 <= j < |r| ==>
              r[j].dataTab == doc[j].dataTab && r[j].classList - {SelectedClass} == doc[j].classList - {SelectedClass}
  {
    var cleared := ClearLinks(doc);
    var e := cleared[link.element];
    var marked := cleared[link.element := e.(classList := e.classList + {SelectedClass})];
    SelectItem(link.tabItem, marked)
  }

  /** The indices of the `.tabs-link` elements that carry `tabs-link-selected`. */
  function SelectedLinks(doc: Document): set<nat> {
    set j: nat | j < |doc| && IsLink(doc[j]) && IsSelected(doc[j])
  }

  // ---------------------------------------------------------------------------
  // Properties

  /** Selecting a link element leaves it the only selected link. */
  lemma SelectLeavesOneSelected(doc: Document, link: TabLink)
    requires link.element < |doc| && IsLink(doc[link.element])
    ensures SelectedLinks(Select(doc, link)) == {link.element}
  {
    var r := Select(doc, link);
    forall j: nat | j < |r| ensures IsLink(r[j]) <==> IsLink(doc[j]) {
      assert LinkClass in r[j].classList - {SelectedClass} <==> LinkClass in doc[j].classList - {SelectedClass};
    }
  }

  /** Two elements that agree on the key, on `tabs-link-selected` and on every other class are equal. */
  lemma SameElement(a: Element, b: Element)
    requires a.dataTab == b.dataTab
    requires a.classList - {SelectedClass} == b.classList - {SelectedClass}
    requires IsSelected(a) <==> IsSelected(b)
    ensures a == b
  {
    forall x | x in a.classList ensures x in b.classList {
      if x != SelectedClass {
        assert x in a.classList - {SelectedClass};
      }
    }
    forall x | x in b.classList ensures x in a.classList {
      if x != SelectedClass {
        assert x in b.classList - {SelectedClass};
      }
    }
  }

  /**
   Selecting a link overrides any earlier selection: selecting `a` then `b`
   yields exactly the document that selecting `b` alone yields.
   */
  lemma SelectOverrides(doc: Document, a: TabLink, b: TabLink)
    requires a.element < |doc| && IsLink(doc[a.element])
    requires b.element < |doc|
    ensures Select(Select(doc, a), b) == Select(doc, b)
  {
    var once := Select(doc, b);
    var twice := Select(Select(doc, a), b);
    forall j | 0 <= j < |doc| ensures twice[j] == once[j] {
      SameElement(twice[j], once[j]);
    }
  }

  /** Selecting the same link twice is the same as selecting it once. */
  lemma SelectIdempotent(doc: Document, link: TabLink)
    requires link.element < |doc| && IsLink(doc[link.element])
    ensures Select(Select(doc, link), link) == Select(doc, link)
  {
    SelectOverrides(doc, link, link);
  }

  /** Selecting never changes which panel a link's selector finds, so the pairing made at construction stays current. */
  lemma SelectKeepsPairing(doc: Document, link: TabLink, i: nat)
    requires link.element < |doc| && i < |doc|
    ensures NewTabLink(Select(doc, link), i) == NewTabLink(doc, i)
  {
    var r := Select(doc, link);
    var key := SelectorKey(doc[i].dataTab);
    forall j | 0 <= j < |doc| ensures MatchesItem(r[j], key) <==> MatchesItem(doc[j], key) {
      assert ItemClass in r[j].classList - {SelectedClass} <==> ItemClass in doc[j].classList - {SelectedClass};
    }
    assert FindItemFrom(r, key, 0) == FindItemFrom(doc, key, 0) by {
      FindItemAgrees(r, doc, key, 0);
    }
  }

  /** Two documents of the same length on which the item selector matches the same elements give the same lookup. */
  lemma {:induction false} FindItemAgrees(d1: Document, d2: Document, key: string, from: nat)
    requires |d1| == |d2| && from <= |d1|
    requires forall j :: 0 <= j < |d1| ==> (MatchesItem(d1[j], key) <==> MatchesItem(d2[j], key))
    ensures FindItemFrom(d1, key, from) == FindItemFrom(d2, key, from)
    decreases |d1| - from
  {
    if from < |d1| {
      FindItemAgrees(d1, d2, key, from + 1);
    }
  }

  /** Clicking any constructed link leaves exactly that link selected, whatever was selected before. */
  lemma ClickLeavesOneSelected(doc: Document, k: nat)
    requires k < |BuildLinks(doc)|
    ensures SelectedLinks(Select(doc, BuildLinks(doc)[k])) == {BuildLinks(doc)[k].element}
  {
    SelectLeavesOneSelected(doc, BuildLinks(doc)[k]);
  }
}
