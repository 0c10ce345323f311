/** The quick-search box of the front end: the list of results shown under
    the search input, the keyboard navigation over that list, and the HTML
    that one batch of results becomes.

    The DOM list of `.search__result` elements is a sequence of items; an
    item carries its link (an anchor has one, the "No results" box has not)
    and whether it has the class `search__result--active`.  The element the
    handler calls `current` is the first active item. */
module TypeAhead {
  import opened Common

  const KeyUp: int := 38
  const KeyDown: int := 40
  const KeyEnter: int := 13

  /** One `.search__result` element. */
  datatype Item = Item(href: Option<string>, active: bool)

  /** What one keyup does besides changing the active class. */
  datatype KeyOutcome =
    | Ignored             // not one of the three keys
    | Moved               // the active class moved to another (or the same) item
    | Navigate(href: string)
    | TypeError           // the handler dereferences `null` or `undefined`

  /** The list and the outcome after one keyup. */
  datatype Pressed = Pressed(items: seq<Item>, outcome: KeyOutcome)

  /** The style of the results box. */
  datatype Display = Unset | Hidden | Block

  /** `search.querySelector('.search__result--active')`. */
  function ActiveIndex(items: seq<Item>): (r: Option<nat>)
    ensures r.Some? ==> r.value < |items| && items[r.value].active
    ensures r.Some? ==> forall j :: 0 <= j < r.value ==> !items[j].active
    ensures r.None? <==> forall j :: 0 <= j < |items| ==> !items[j].active
  {
    FirstIndex(items, (it: Item) => it.active)
  }

  /** No two items are active at once: every operation of the box keeps this. */
  predicate AtMostOneActive(items: seq<Item>) {
    forall j, k :: 0 <= j < k < |items| ==> !(items[j].active && items[k].active)
  }

  /** Exactly the item at index t is active. */
  predicate SelectedAt(items: seq<Item>, t: nat) {
    t < |items| && forall k :: 0 <= k < |items| ==> (items[k].active <==> k == t)
  }

  /** Two lists have the same links in the same order. */
  predicate SameLinks(a: seq<Item>, b: seq<Item>) {
    |a| == |b| && forall k :: 0 <= k < |a| ==> a[k].href == b[k].href
  }

  /** The index an arrow key moves the active class to, among n items, from
      the currently active index: forward or backward by one, cyclically,
      entering the list at its first (down) or last (up) item.  None when
      there is no item to move to. */
  function Target(code: int, n: nat, cur: Option<nat>): (r: Option<nat>)
    requires code == KeyDown || code == KeyUp
    requires cur.Some? ==> cur.value < n
    ensures r.Some? <==> n > 0
    ensures r.Some? ==> r.value < n
    ensures code == KeyDown && cur.Some? ==> r == Some((cur.value + 1) % n)
    ensures code == KeyUp && cur.Some? ==> r == Some((cur.value - 1) % n)
    ensures code == KeyDown && cur.None? && n > 0 ==> r == Some(0)
    ensures code == KeyUp && cur.None? && n > 0 ==> r == Some(n - 1)
  {
    if n == 0 then None
    else if code == KeyDown then
      (match cur
       case None => Some(0)
       case Some(i) => SuccMod(i, n); Some(if i + 1 < n then i + 1 else 0))
    else
      (match cur
       case None => Some(n - 1)
       case Some(i) => PredMod(i, n); Some(if i > 0 then i - 1 else n - 1))
  }

  /** Stepping forward from index i among n wraps from the last to 0. */
  lemma SuccMod(i: int, n: int)
    requires 0 <= i < n
    ensures (i + 1) % n == if i + 1 < n then i + 1 else 0
  {
  }

  /** Stepping backward from index i among n wraps from 0 to the last. */
  lemma PredMod(i: int, n: int)
    requires 0 <= i < n
    ensures (i - 1) % n == if i > 0 then i - 1 else n - 1
  {
  }

  /** The list with the item at `cur` (if any) no longer active. */
  function Deactivate(items: seq<Item>, cur: Option<nat>): (r: seq<Item>)
    requires cur.Some? ==> cur.value < |items|
    ensures SameLinks(r, items)
    ensures forall k :: 0 <= k < |r| ==> (r[k].active <==> items[k].active && Some(k) != cur)
  {
    match cur
    case None => items
    case Some(c) => items[c := items[c].(active := false)]
  }

  /** The whole effect of one keyup with key code `code` on the list. */
  function Press(items: seq<Item>, code: int): (r: Pressed)
    ensures SameLinks(r.items, items)
  {
    if code != KeyUp && code != KeyDown && code != KeyEnter then Pressed(items, Ignored)
    else
      var cur := ActiveIndex(items);
      if code == KeyEnter && cur.None? then Pressed(items, TypeError)
      else if code == KeyEnter && items[cur.value].href.Some? then
        Pressed(items, Navigate(items[cur.value].href.value))
      else
        var next := if code == KeyEnter then None else Target(code, |items|, cur);
        var cleared := Deactivate(items, cur);
        match next
        case None => Pressed(cleared, TypeError)
        case Some(t) => Pressed(cleared[t := cleared[t].(active := true)], Moved)
  }

  /** Other keys change nothing; Enter with nothing active or an arrow on an
      empty list fail and change nothing; Enter on a linked item navigates
      there and leaves the list as it was; Enter on an active item without a
      link (the "No results" box) removes its active class and then fails on
      the missing `next`; only an arrow on a non-empty list moves the active
      class. */
  lemma PressCases(items: seq<Item>, code: int)
    ensures var r := Press(items, code);
      && (code != KeyUp && code != KeyDown && code != KeyEnter ==> r == Pressed(items, Ignored))
      && (code == KeyEnter && ActiveIndex(items).None? ==> r == Pressed(items, TypeError))
      && ((code == KeyEnter && ActiveIndex(items).Some? && items[ActiveIndex(items).value].href.Some?)
          ==> r == Pressed(items, Navigate(items[ActiveIndex(items).value].href.value)))
      && ((code == KeyEnter && ActiveIndex(items).Some? && items[ActiveIndex(items).value].href.None?)
          ==> r == Pressed(Deactivate(items, ActiveIndex(items)), TypeError))
      && ((code == KeyUp || code == KeyDown) && |items| == 0 ==> r == Pressed(items, TypeError))
      && (r.outcome == Moved <==> (code == KeyUp || code == KeyDown) && |items| > 0)
  {
  }

  /** An arrow key on a non-empty list leaves exactly the target item active,
      whatever was active before. */
  lemma ArrowSelectsTarget(items: seq<Item>, code: int)
    requires code == KeyUp || code == KeyDown
    requires |items| > 0
    ensures SelectedAt(Press(items, code).items, Target(code, |items|, ActiveIndex(items)).value)
            || !AtMostOneActive(items)
    ensures Press(items, code).items[Target(code, |items|, ActiveIndex(items)).value].active
  {
    var cur := ActiveIndex(items);
    var t := Target(code, |items|, cur).value;
    var r := Press(items, code).items;
    if AtMostOneActive(items) {
      forall k | 0 <= k < |r| ensures r[k].active <==> k == t {
        if k != t && items[k].active {
          assert cur.Some? && cur.value <= k;
        }
      }
    }
  }

  /** Every keyup keeps at most one item active. */
  lemma PressKeepsAtMostOne(items: seq<Item>, code: int)
    requires AtMostOneActive(items)
    ensures AtMostOneActive(Press(items, code).items)
  {
    var r := Press(items, code);
    PressCases(items, code);
    if r.outcome == Moved {
      ArrowSelectsTarget(items, code);
    }
  }

  /** The active item, when exactly one is selected, sits at that index. */
  lemma SelectedIsActive(items: seq<Item>, t: nat)
    requires SelectedAt(items, t)
    ensures ActiveIndex(items) == Some(t)
    ensures AtMostOneActive(items)
  {
    assert items[t].active;
  }

  /** Two lists with the same links and the same selected index are equal. */
  lemma SelectionDetermines(a: seq<Item>, b: seq<Item>, t: nat)
    requires SameLinks(a, b)
    requires SelectedAt(a, t) && SelectedAt(b, t)
    ensures a == b
  {
    forall k | 0 <= k < |a| ensures a[k] == b[k] {
      assert a[k].active == b[k].active;
    }
  }

  /** Down moves the selection from i to the next item, wrapping from the
      last to the first; up moves it back. */
  lemma DownThenUpRestores(items: seq<Item>, i: nat)
    requires SelectedAt(items, i)
    ensures Press(Press(items, KeyDown).items, KeyUp).items == items
  {
    var n := |items|;
    SelectedIsActive(items, i);
    var down := Press(items, KeyDown).items;
    ArrowSelectsTarget(items, KeyDown);
    var j := (i + 1) % n;
    SuccMod(i, n);
    SelectedIsActive(down, j);
    var up := Press(down, KeyUp).items;
    ArrowSelectsTarget(down, KeyUp);
    PredMod(j, n);
    SelectionDetermines(up, items, i);
  }

  /** Up then down likewise returns to the item it started from. */
  lemma UpThenDownRestores(items: seq<Item>, i: nat)
    requires SelectedAt(items, i)
    ensures Press(Press(items, KeyUp).items, KeyDown).items == items
  {
    var n := |items|;
    SelectedIsActive(items, i);
    var up := Press(items, KeyUp).items;
    ArrowSelectsTarget(items, KeyUp);
    var j := (i - 1) % n;
    PredMod(i, n);
    SelectedIsActive(up, j);
    var down := Press(up, KeyDown).items;
    ArrowSelectsTarget(up, KeyDown);
    SuccMod(j, n);
    SelectionDetermines(down, items, i);
  }

  /** The effect of one press of a key on the list. */
  function Presser(code: int): seq<Item> -> seq<Item> {
    (x: seq<Item>) => Press(x, code).items
  }

  /** x after m applications of f. */
  function Iterate(f: seq<Item> -> seq<Item>, x: seq<Item>, m: nat): seq<Item> {
    if m == 0 then x else f(Iterate(f, x, m - 1))
  }

  /** The list after m presses of the same key. */
  function PressTimes(items: seq<Item>, code: int, m: nat): seq<Item> {
    Iterate(Presser(code), items, m)
  }

  /** f moves a single selection one item forward, cyclically, and keeps
      the links. */
  ghost predicate AdvancesSelection(f: seq<Item> -> seq<Item>) {
    forall x: seq<Item>, j: nat :: SelectedAt(x, j) ==>
      SameLinks(f(x), x) && SelectedAt(f(x), if j + 1 < |x| then j + 1 else 0)
  }

  /** One press of down is such a step. */
  lemma DownAdvances()
    ensures AdvancesSelection(Presser(KeyDown))
  {
    forall x: seq<Item>, j: nat | SelectedAt(x, j)
      ensures SameLinks(Presser(KeyDown)(x), x)
      ensures SelectedAt(Presser(KeyDown)(x), if j + 1 < |x| then j + 1 else 0)
    {
      SelectedIsActive(x, j);
      ArrowSelectsTarget(x, KeyDown);
    }
  }

  /** a applications followed by b applications are a + b applications. */
  lemma {:induction false} IterateAdd(f: seq<Item> -> seq<Item>, x: seq<Item>, a: nat, b: nat)
    ensures Iterate(f, Iterate(f, x, a), b) == Iterate(f, x, a + b)
  {
    if b > 0 {
      IterateAdd(f, x, a, b - 1);
    }
  }

  /** m steps from item i, without reaching the end, select item i + m. */
  lemma {:induction false} StepsForward(f: seq<Item> -> seq<Item>, x: seq<Item>, i: nat, m: nat)
    requires AdvancesSelection(f)
    requires SelectedAt(x, i)
    requires i + m < |x|
    ensures SelectedAt(Iterate(f, x, m), i + m) && SameLinks(Iterate(f, x, m), x)
  {
    if m > 0 {
      StepsForward(f, x, i, m - 1);
      var before := Iterate(f, x, m - 1);
      assert SelectedAt(before, i + m - 1);
    }
  }

  /** Stepping past the last item wraps around to the first. */
  lemma StepsWrap(f: seq<Item> -> seq<Item>, x: seq<Item>, i: nat)
    requires AdvancesSelection(f)
    requires SelectedAt(x, i)
    ensures SelectedAt(Iterate(f, x, |x| - i), 0) && SameLinks(Iterate(f, x, |x| - i), x)
  {
    var m := |x| - i;
    StepsForward(f, x, i, m - 1);
    var atLast := Iterate(f, x, m - 1);
    assert SelectedAt(atLast, |x| - 1);
  }

  /** n steps on a list of n items come back to where they started: over
      the end to the first item, and forward again. */
  lemma StepsCycle(f: seq<Item> -> seq<Item>, x: seq<Item>, i: nat)
    requires AdvancesSelection(f)
    requires SelectedAt(x, i)
    ensures Iterate(f, x, |x|) == x
  {
    var m := |x| - i;
    StepsWrap(f, x, i);
    var atFirst := Iterate(f, x, m);
    StepsForward(f, atFirst, 0, i);
    IterateAdd(f, x, m, i);
    SelectionDetermines(Iterate(f, atFirst, i), x, i);
  }

  /** So n presses of down on a list of n items come back to where they
      started. */
  lemma DownsCycle(items: seq<Item>, i: nat)
    requires SelectedAt(items, i)
    ensures PressTimes(items, KeyDown, |items|) == items
  {
    DownAdvances();
    StepsCycle(Presser(KeyDown), items, i);
  }

  /** With nothing active, the first down selects the first item and the
      first up the last one. */
  lemma EnterList(items: seq<Item>)
    requires |items| > 0
    requires ActiveIndex(items).None?
    ensures SelectedAt(Press(items, KeyDown).items, 0)
    ensures SelectedAt(Press(items, KeyUp).items, |items| - 1)
  {
    ArrowSelectsTarget(items, KeyDown);
    ArrowSelectsTarget(items, KeyUp);
  }

  /** The links one batch of search hits becomes, none of them active. */
  function Links(hits: seq<SearchHit>): (r: seq<Item>)
    ensures |r| == |hits|
    ensures forall k :: 0 <= k < |r| ==> r[k] == Item(Some(StorePath(hits[k].slug)), false)
  {
    if hits == [] then [] else [Item(Some(StorePath(hits[0].slug)), false)] + Links(hits[1..])
  }

  /** The "No results" box: a result element without a link. */
  const NoResults: Item := Item(None, false)

  /** The search box: the style of the results box, the result elements in
      it, and the page the browser was sent to. */
  class SearchBox {
    var display: Display
    var items: seq<Item>
    var location: Option<string>

    predicate Valid()
      reads this
    {
      AtMostOneActive(items)
    }

    constructor ()
      ensures Valid()
      ensures display == Unset && items == [] && location == None
    {
      display := Unset;
      items := [];
      location := None;
    }

    /** The `input` handler up to the request: an empty value hides the
        results; otherwise the box is shown and emptied. */
    method OnInput(value: string)
      requires Valid()
      modifies this
      ensures Valid()
      ensures value == "" ==> display == Hidden && items == old(items)
      ensures value != "" ==> display == Block && items == []
      ensures location == old(location)
    {
      if value == "" {
        display := Hidden;
        return;
      }
      display := Block;
      items := [];
    }

    /** The response handler: the hits as links, or the "No results" box. */
    method ShowResults(hits: seq<SearchHit>)
      requires Valid()
      modifies this
      ensures Valid()
      ensures |hits| > 0 ==> items == Links(hits)
      ensures |hits| == 0 ==> items == [NoResults]
      ensures display == old(display) && location == old(location)
    {
      if |hits| > 0 {
        items := Links(hits);
        return;
      }
      items := [NoResults];
    }

    /** The `keyup` handler. */
    method OnKeyUp(code: int) returns (outcome: KeyOutcome)
      requires Valid()
      modifies this
      ensures Valid()
      ensures items == Press(old(items), code).items
      ensures outcome == Press(old(items), code).outcome
      ensures outcome.Navigate? ==> location == Some(outcome.href)
      ensures !outcome.Navigate? ==> location == old(location)
      ensures display == old(display)
    {
      PressKeepsAtMostOne(items, code);
      PressCases(items, code);
      SiblingsFollowTarget(|items|, ActiveIndex(items));
      if code != KeyUp && code != KeyDown && code != KeyEnter {
        return Ignored;
      }
      var n := |items|;
      var current := ActiveIndex(items);
      var next: Option<nat> := None;
      if code == KeyDown && current.Some? {
        next := Or(NextSibling(current.value, n), ItemAt(0, n));
      } else if code == KeyDown {
        next := ItemAt(0, n);
      } else if code == KeyUp && current.Some? {
        next := Or(PreviousSibling(current.value), ItemAt(n - 1, n));
      } else if code == KeyUp {
        next := ItemAt(n - 1, n);
      } else if current.None? {
        return TypeError;
      } else if items[current.value].href.Some? {
        location := items[current.value].href;
        return Navigate(items[current.value].href.value);
      }
      if current.Some? {
        items := items[current.value := items[current.value].(active := false)];
      }
      if next.None? {
        return TypeError;
      }
      var t := next.value;
      items := items[t := items[t].(active := true)];
      outcome := Moved;
    }
  }

  /** The handler's walk over the DOM (the next or previous sibling of
      `current`, or else the first or last item) reaches the cyclic target
      of the arrow key. */
  lemma SiblingsFollowTarget(n: nat, cur: Option<nat>)
    requires cur.Some? ==> cur.value < n
    ensures Target(KeyDown, n, cur)
            == if cur.Some? then Or(NextSibling(cur.value, n), ItemAt(0, n)) else ItemAt(0, n)
    ensures Target(KeyUp, n, cur)
            == if cur.Some? then Or(PreviousSibling(cur.value), ItemAt(n - 1, n)) else ItemAt(n - 1, n)
  {
  }

  /** `a || b` on two possibly missing elements. */
  function Or(a: Option<nat>, b: Option<nat>): Option<nat> {
    if a.Some? then a else b
  }

  /** `nextElementSibling` of the item at i among n. */
  function NextSibling(i: nat, n: nat): Option<nat> {
    if i + 1 < n then Some(i + 1) else None
  }

  /** `previousElementSibling` of the item at i. */
  function PreviousSibling(i: nat): Option<nat> {
    if i > 0 then Some(i - 1) else None
  }

  /** `items[k]`, which is `undefined` outside the list. */
  function ItemAt(k: int, n: nat): Option<nat> {
    if 0 <= k < n then Some(k) else None
  }

  // ---------------------------------------------------------------------
  // searchResultsHTML
  // ---------------------------------------------------------------------

  /** A search hit as the search endpoint returns it. */
  datatype SearchHit = SearchHit(name: string, slug: string)

  function StorePath(slug: string): string { "/stores/" + slug }

  /** The three fixed pieces of the anchor template, around the slug and
      around the name. */
  datatype Template = Template(open: string, middle: string, close: string)

  /** The template literal of `searchResultsHTML`, tabs and newlines
      included. */
  const ResultTemplate: Template := Template(
    "\n\t\t\t<a href=\"/stores/",
    "\" class=\"search__result\">\n\t\t\t\t<strong>",
    "</strong>\n\t\t\t</a>\n\t\t")

  /** The template filled in for one hit. */
  function Anchor(t: Template, h: SearchHit): string {
    t.open + h.slug + t.middle + h.name + t.close
  }

  /** The anchors of the hits, in order, joined with the empty string. */
  function Render(t: Template, hits: seq<SearchHit>): string {
    if hits == [] then [] else Anchor(t, hits[0]) + Render(t, hits[1..])
  }

  /** `searchResultsHTML`. */
  function ResultsHtml(hits: seq<SearchHit>): (r: string)
    ensures hits == [] <==> r == []
  {
    Render(ResultTemplate, hits)
  }

  /** The length of the longest prefix of s without `stop`. */
  function Span(s: string, stop: char): (r: nat)
    ensures r <= |s|
    ensures stop !in s[..r]
    ensures r < |s| ==> s[r] == stop
  {
    if s == [] || s[0] == stop then 0
    else
      assert s[..1 + Span(s[1..], stop)] == [s[0]] + s[1..][..Span(s[1..], stop)];
      1 + Span(s[1..], stop)
  }

  /** A prefix without `stop`, followed by `stop`, is exactly that span. */
  lemma {:induction false} SpanOf(a: string, b: string, stop: char)
    requires stop !in a
    requires |b| > 0 && b[0] == stop
    ensures Span(a + b, stop) == |a|
  {
    if a != [] {
      assert (a + b)[1..] == a[1..] + b;
      SpanOf(a[1..], b, stop);
    }
  }

  /** Reads back the hits from HTML in the shape `Render` writes with
      template t: a slug ends at the first '"' and a name at the first '<'. */
  function Parse(t: Template, html: string): Option<seq<SearchHit>>
    requires |t.open| > 0
    decreases |html|
  {
    if html == [] then Some([])
    else if !(t.open <= html) then None
    else
      var rest := html[|t.open|..];
      var i := Span(rest, '"');
      var afterSlug := rest[i..];
      if !(t.middle <= afterSlug) then None
      else
        var body := afterSlug[|t.middle|..];
        var j := Span(body, '<');
        var afterName := body[j..];
        if !(t.close <= afterName) then None
        else
          match Parse(t, afterName[|t.close|..])
          case None => None
          case Some(tail) => Some([SearchHit(body[..j], rest[..i])] + tail)
  }

  /** A template whose slug is closed by '"' and whose name is closed by '<'. */
  predicate Delimited(t: Template) {
    |t.open| > 0 && |t.middle| > 0 && t.middle[0] == '"' && |t.close| > 0 && t.close[0] == '<'
  }

  /** A hit whose slug has no '"' and whose name has no '<' survives the
      template unchanged. */
  predicate Plain(h: SearchHit) {
    '"' !in h.slug && '<' !in h.name
  }

  /** One anchor splits into its pieces. */
  lemma AnchorPieces(t: Template, h: SearchHit, tail: string)
    ensures Anchor(t, h) + tail == t.open + (h.slug + (t.middle + (h.name + (t.close + tail))))
  {
  }

  /** Where `Parse` cuts one anchor of a plain hit: after the opening piece
      the slug runs up to the middle piece, the name runs up to the closing
      piece, and what follows is the tail. */
  lemma AnchorCuts(t: Template, h: SearchHit, tail: string)
    requires Delimited(t) && Plain(h)
    ensures var html := Anchor(t, h) + tail;
      && t.open <= html
      && var rest := html[|t.open|..];
      && Span(rest, '"') == |h.slug| && rest[..|h.slug|] == h.slug
      && t.middle <= rest[|h.slug|..]
      && var body := rest[|h.slug|..][|t.middle|..];
      && Span(body, '<') == |h.name| && body[..|h.name|] == h.name
      && t.close <= body[|h.name|..]
      && body[|h.name|..][|t.close|..] == tail
  {
    var afterName := t.close + tail;
    var body := h.name + afterName;
    var afterSlug := t.middle + body;
    var rest := h.slug + afterSlug;
    var html := Anchor(t, h) + tail;
    AnchorPieces(t, h, tail);
    assert html[|t.open|..] == rest;
    SpanOf(h.slug, afterSlug, '"');
    assert rest[|h.slug|..] == afterSlug && rest[..|h.slug|] == h.slug;
    assert afterSlug[|t.middle|..] == body;
    SpanOf(h.name, afterName, '<');
    assert body[|h.name|..] == afterName && body[..|h.name|] == h.name;
    assert afterName[|t.close|..] == tail;
  }

  /** Parsing one anchor of a plain hit yields the hit, and parsing continues
      after it. */
  lemma ParseAnchor(t: Template, h: SearchHit, tail: string)
    requires Delimited(t) && Plain(h)
    ensures Parse(t, Anchor(t, h) + tail) ==
              match Parse(t, tail)
              case None => None
              case Some(more) => Some([h] + more)
  {
    AnchorCuts(t, h, tail);
    assert Anchor(t, h) + tail != [];
  }

  /** One anchor per hit, in order: what `Render` writes for plain hits
      reads back as exactly those hits. */
  lemma {:induction false} ParseRender(t: Template, hits: seq<SearchHit>)
    requires Delimited(t)
    requires forall k :: 0 <= k < |hits| ==> Plain(hits[k])
    ensures Parse(t, Render(t, hits)) == Some(hits)
  {
    if hits != [] {
      ParseRender(t, hits[1..]);
      ParseAnchor(t, hits[0], Render(t, hits[1..]));
      assert [hits[0]] + hits[1..] == hits;
    }
  }

  /** So the search results' HTML for plain hits holds one link per hit, in
      order, to `/stores/<slug>` and showing the name. */
  lemma ResultsHtmlReadsBack(hits: seq<SearchHit>)
    requires forall k :: 0 <= k < |hits| ==> Plain(hits[k])
    ensures Parse(ResultTemplate, ResultsHtml(hits)) == Some(hits)
  {
    assert ResultTemplate.middle[0] == '"' && ResultTemplate.close[0] == '<';
    ParseRender(ResultTemplate, hits);
  }
}
