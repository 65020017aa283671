// The part of the document that the page navigator reads and writes, as plain
// data: every element that carries an id or the class `page`, in document order,
// and the `.nav-link` anchors. Styles and classes the script touches become
// booleans and enums.
module Dom {

  datatype Option<T> = None | Some(value: T)

  /** The inline `display` style of an element: unset (the stylesheet decides),
      `block`, or `none`. */
  datatype Display = Unset | Block | NoDisplay

  /** An image inside a page: its `src` and its optional `data-src` attribute. */
  datatype Img = Img(src: string, dataSrc: Option<string>)

  /** An element that can be looked up by id. `isPage` is the class `page`,
      `active` the class `active`, `preloaded` the class `preloaded`;
      `images` are the descendants that carry a `data-src` attribute, in order.
      An element without an id attribute has id "". */
  datatype Element = Element(
    id: string,
    isPage: bool,
    active: bool,
    display: Display,
    preloaded: bool,
    images: seq<Img>)

  /** A `.nav-link`: its `data-page` attribute (absent or a string) and whether
      it carries the class `active`. */
  datatype NavLink = NavLink(dataPage: Option<string>, active: bool)

  /** `document.getElementById(id)`: the first element in document order whose
      id is `id`; the empty id never matches. */
  function FindById(es: seq<Element>, id: string): (r: Option<nat>)
    ensures r.Some? ==> r.value < |es| && es[r.value].id == id && id != ""
    ensures r.Some? ==> forall j :: 0 <= j < r.value ==> es[j].id != id
    ensures r.None? ==> id == "" || forall j :: 0 <= j < |es| ==> es[j].id != id
  {
    if id == "" || |es| == 0 then None
    else if es[0].id == id then Some(0)
    else match FindById(es[1..], id)
      case None => None
      case Some(k) => Some(k + 1)
  }

  /** Two documents whose ids agree position by position resolve every id to the
      same element. */
  lemma {:induction false} FindBySameIds(es: seq<Element>, fs: seq<Element>, id: string)
    requires |es| == |fs|
    requires forall j :: 0 <= j < |es| ==> es[j].id == fs[j].id
    ensures FindById(es, id) == FindById(fs, id)
  {
    if id != "" && |es| > 0 && es[0].id != id {
      FindBySameIds(es[1..], fs[1..], id);
    }
  }

  /** The `.page` element found under `id`, if the element with that id is one. */
  predicate NamesPage(es: seq<Element>, id: string): (b: bool)
    // some element has the id, and the first one with it is a `.page`
    ensures b <==> exists i ::
      0 <= i < |es| && es[i].id == id != "" && es[i].isPage && forall j :: 0 <= j < i ==> es[j].id != id
  {
    var t := FindById(es, id);
    t.Some? && es[t.value].isPage
  }

  /** At most one `.page` element carries the class `active`. */
  predicate AtMostOneActivePage(es: seq<Element>)
  {
    forall i, j ::
      (0 <= i < |es| && 0 <= j < |es| && es[i].isPage && es[i].active && es[j].isPage && es[j].active)
      ==> i == j
  }

  /** What the hiding loop of showPage does to one element. */
  function Hidden(e: Element): (r: Element)
    ensures r.id == e.id && r.isPage == e.isPage && r.preloaded == e.preloaded && r.images == e.images
    ensures e.isPage ==> !r.active && r.display == NoDisplay
    ensures !e.isPage ==> r == e
  {
    if e.isPage then e.(active := false, display := NoDisplay) else e
  }

  /** What showPage does to the element it found. */
  function Shown(e: Element): (r: Element)
    ensures r.active && r.display == Block
    ensures r.id == e.id && r.isPage == e.isPage && r.preloaded == e.preloaded && r.images == e.images
  {
    e.(active := true, display := Block)
  }

  /** Every `.page` loses `active` and gets `display: none`; every other element is
      left as it was. */
  function HideAll(es: seq<Element>): (r: seq<Element>)
    ensures |r| == |es|
    ensures forall j :: 0 <= j < |es| ==> r[j] == Hidden(es[j])
  {
    seq(|es|, j requires 0 <= j < |es| => Hidden(es[j]))
  }

  /** The elements after `showPage(name)`: all pages hidden, then the element with
      id `name` (if any) marked active and displayed. Ids and page classes never
      change, so the same element would be found again. */
  function AfterShowPage(es: seq<Element>, name: string): (r: seq<Element>)
    ensures |r| == |es|
    ensures forall j :: 0 <= j < |es| ==>
      (r[j].id == es[j].id && r[j].isPage == es[j].isPage &&
       r[j].preloaded == es[j].preloaded && r[j].images == es[j].images)
    ensures AtMostOneActivePage(r)
    ensures FindById(r, name) == FindById(es, name)
    // the found element is the one active, displayed element among the pages
    ensures NamesPage(es, name) ==> forall j :: 0 <= j < |es| && es[j].isPage ==>
      (r[j].active <==> j == FindById(es, name).value) &&
      (r[j].display == (if j == FindById(es, name).value then Block else NoDisplay))
    // the element found, page or not, is marked active and displayed
    ensures FindById(es, name).Some? ==>
      r[FindById(es, name).value] == Shown(Hidden(es[FindById(es, name).value]))
    // no page with that id: every page ends up inactive and hidden
    ensures !NamesPage(es, name) ==> forall j :: 0 <= j < |es| && es[j].isPage ==>
      !r[j].active && r[j].display == NoDisplay
    // elements other than the pages and the found one are untouched
    ensures forall j :: 0 <= j < |es| && !es[j].isPage && FindById(es, name) != Some(j) ==>
      r[j] == es[j]
  {
    var h := HideAll(es);
    var t := FindById(es, name);
    FindBySameIds(h, es, name);
    if t.None? then h
    else
      var r := h[t.value := Shown(h[t.value])];
      FindBySameIds(r, es, name);
      r
  }

  /** Calling showPage twice with the same name has the effect of calling it once. */
  lemma {:induction false} AfterShowPageIdempotent(es: seq<Element>, name: string)
    ensures AfterShowPage(AfterShowPage(es, name), name) == AfterShowPage(es, name)
  {
    var once := AfterShowPage(es, name);
    var twice := AfterShowPage(once, name);
    forall j | 0 <= j < |es|
      ensures twice[j] == once[j]
    {
      if FindById(es, name) == Some(j) {
        assert twice[j] == Shown(Hidden(once[j]));
      } else {
        assert once[j] == Hidden(es[j]);
        assert twice[j] == Hidden(once[j]);
      }
    }
  }

  /** The links after `updateActiveStates(page)`: a link is active exactly when its
      `data-page` is `page`; its `data-page` is untouched. */
  function Highlighted(links: seq<NavLink>, page: string): (r: seq<NavLink>)
    ensures |r| == |links|
    ensures forall j :: 0 <= j < |links| ==>
      r[j].dataPage == links[j].dataPage && (r[j].active <==> links[j].dataPage == Some(page))
  {
    seq(|links|, j requires 0 <= j < |links| => links[j].(active := links[j].dataPage == Some(page)))
  }

  /** Highlighting forgets the previous highlight: only the page named counts, and
      doing it twice is doing it once. */
  lemma HighlightedForgetsPrevious(links: seq<NavLink>, a: string, b: string)
    ensures Highlighted(Highlighted(links, a), b) == Highlighted(links, b)
  {
  }

  /** One image after the lazy-loading loop of preloadPageContent: a non-empty
      `data-src` becomes the `src` and the attribute is removed; an empty one is
      left in place. */
  function LoadLazy(img: Img): (r: Img)
    ensures img.dataSrc.Some? && img.dataSrc.value != "" ==> r == Img(img.dataSrc.value, None)
    ensures img.dataSrc.None? || img.dataSrc.value == "" ==> r == img
  {
    match img.dataSrc
    case Some(s) => if s != "" then Img(s, None) else img
    case None => img
  }

  /** The elements after `preloadPageContent(name)`: the element with that id, if it
      is not yet marked, is marked `preloaded` and its lazy images loaded. */
  function AfterPreload(es: seq<Element>, name: string): (r: seq<Element>)
    ensures |r| == |es|
    ensures forall j :: 0 <= j < |es| ==>
      (r[j].id == es[j].id && r[j].isPage == es[j].isPage &&
       r[j].active == es[j].active && r[j].display == es[j].display)
    ensures forall j :: 0 <= j < |es| && FindById(es, name) != Some(j) ==> r[j] == es[j]
    ensures FindById(es, name).Some? ==> r[FindById(es, name).value].preloaded
    // an element not yet marked has each of its lazy images loaded
    ensures FindById(es, name).Some? && !es[FindById(es, name).value].preloaded ==>
      var e, f := es[FindById(es, name).value], r[FindById(es, name).value];
      f == e.(preloaded := true, images := f.images) && |f.images| == |e.images| &&
      forall i :: 0 <= i < |e.images| ==> f.images[i] == LoadLazy(e.images[i])
    ensures forall j :: 0 <= j < |es| && r[j].preloaded && es[j].preloaded ==> r[j] == es[j]
  {
    var t := FindById(es, name);
    if t.None? || es[t.value].preloaded then es
    else
      var e := es[t.value];
      es[t.value := e.(preloaded := true,
                       images := seq(|e.images|, k requires 0 <= k < |e.images| => LoadLazy(e.images[k])))]
  }

  /** preloadPageContent is idempotent: the `preloaded` class stops a second pass. */
  lemma {:induction false} AfterPreloadIdempotent(es: seq<Element>, name: string)
    ensures AfterPreload(AfterPreload(es, name), name) == AfterPreload(es, name)
  {
    var once := AfterPreload(es, name);
    FindBySameIds(once, es, name);
  }

  /** preloadPageContent touches no `active` class, so it keeps at most one page
      active. */
  lemma PreloadKeepsOneActivePage(es: seq<Element>, name: string)
    requires AtMostOneActivePage(es)
    ensures AtMostOneActivePage(AfterPreload(es, name))
  {
    var r := AfterPreload(es, name);
    forall i, j | 0 <= i < |r| && 0 <= j < |r| && r[i].isPage && r[i].active && r[j].isPage && r[j].active
      ensures i == j
    {
      assert es[i].isPage && es[i].active && es[j].isPage && es[j].active;
    }
  }
}
