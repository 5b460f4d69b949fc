/** The listing of bills ("مشاريع القوانين" or "مقترحات القوانين"): pages of items
    (".col-md-6.col-lg-4.mb-4"), each linking to a detail page, and a "التالي" (next) link.
    The browser is replaced by values: `pages[i]` is the listing shown after `i` clicks on
    the next link, and `found` maps a detail URL to the readings its page yields
    (`SiteReadings`); a URL the map does not hold is one whose navigation or page load
    fails. */
module Listing {
  import opened Text
  import opened Readings

  /** The "h3.questionss_group a" of an item: its `href` attribute (None when absent) and the
      text of its `p` (None when the link has no `p`). */
  datatype ItemLink = ItemLink(href: Option<string>, title: Option<string>)

  /** An item; `link` is None when it has no "h3.questionss_group a". */
  datatype ListingItem = ListingItem(link: Option<ItemLink>)

  /** The next link: absent, present but disabled, present and its click raising before the
      browser leaves the page, present and its click navigating to `target` while the click or
      the wait for the page load then raises, or present and its click leading to `target`. */
  datatype NextLink = NoNext | Disabled | ClickFails | LoadFails(target: string) | Enabled(target: string)

  datatype ListingPage = ListingPage(items: seq<ListingItem>, next: NextLink)

  /** `law_details`: the type, the title, the URL and the readings. */
  datatype Law = Law(lawType: string, title: string, url: Option<string>, readings: seq<Reading>)

  /** The basic record of an item, or None when its link or title cannot be extracted. */
  function Basic(lawType: string, item: ListingItem): (r: Option<Law>)
    ensures r.Some? <==> item.link.Some? && item.link.value.title.Some?
    ensures r.Some? ==> r.value.lawType == lawType && r.value.readings == []
  {
    match item.link
    case None => None
    case Some(l) =>
      match l.title
      case None => None
      case Some(t) => Some(Law(lawType, Strip(t), l.href, []))
  }

  /** `page_laws`: the basic records of the items that have them, in item order. */
  function Collected(lawType: string, items: seq<ListingItem>): (laws: seq<Law>)
    ensures |laws| <= |items|
    decreases |items|
  {
    if items == [] then []
    else
      Collected(lawType, items[..|items| - 1])
        + match Basic(lawType, items[|items| - 1]) case None => [] case Some(law) => [law]
  }

  /** The readings each detail page of `site` yields. */
  function SiteReadings(site: map<string, DetailPage>): (found: map<string, seq<Reading>>)
    ensures found.Keys == site.Keys
  {
    map u | u in site :: DetailReadings(site[u])
  }

  /** The readings a law's detail visit yields: nothing when there is no URL or navigation
      fails, otherwise those of its detail page. */
  function ReadingsAt(found: map<string, seq<Reading>>, url: Option<string>): seq<Reading> {
    match url
    case None => []
    case Some(u) => if u in found then found[u] else []
  }

  /** A law after its detail visit: the readings found are appended to its own. */
  function Visit(found: map<string, seq<Reading>>, law: Law): Law {
    law.(readings := law.readings + ReadingsAt(found, law.url))
  }

  /** Each law of a page after its detail visit, in order. */
  function Visited(found: map<string, seq<Reading>>, laws: seq<Law>): seq<Law>
    decreases |laws|
  {
    if laws == [] then [] else [Visit(found, laws[0])] + Visited(found, laws[1..])
  }

  /** The laws one listing page contributes. */
  function PageLaws(lawType: string, found: map<string, seq<Reading>>, page: ListingPage): seq<Law> {
    Visited(found, Collected(lawType, page.items))
  }

  /** The laws each listing page contributes, page by page. */
  function Contributions(lawType: string, found: map<string, seq<Reading>>, pages: seq<ListingPage>)
    : (parts: seq<seq<Law>>)
    ensures |parts| == |pages|
  {
    seq(|pages|, k requires 0 <= k < |pages| => PageLaws(lawType, found, pages[k]))
  }

  /** The laws of the walk that starts at page `i`, given what each page contributes: a page
      without items ends it (the wait for items times out, or the list is empty), and so does
      a next link that is missing, disabled, or whose click or page load raises. Past the last
      modelled page there are no items. */
  function Chain(pages: seq<ListingPage>, parts: seq<seq<Law>>, i: nat): seq<Law>
    requires |parts| == |pages|
    decreases |pages| - i
  {
    if i >= |pages| || pages[i].items == [] then []
    else if pages[i].next.Enabled? then parts[i] + Chain(pages, parts, i + 1)
    else parts[i]
  }

  /** The laws of the walk that starts at page `i`. */
  function Walk(lawType: string, found: map<string, seq<Reading>>, pages: seq<ListingPage>, i: nat): seq<Law> {
    Chain(pages, Contributions(lawType, found, pages), i)
  }

  /** Where the browser is when the walk that starts at page `i`, shown at `url`, ends: back
      on the last listing page processed, since every detail visit returns there, or on the
      page a next link was loading when the load raised. */
  function WalkEnd(pages: seq<ListingPage>, i: nat, url: string): string
    decreases |pages| - i
  {
    if i >= |pages| || pages[i].items == [] then url
    else if pages[i].next.Enabled? then WalkEnd(pages, i + 1, pages[i].next.target)
    else if pages[i].next.LoadFails? then pages[i].next.target
    else url
  }

  /** How many pages the walk that starts at `i` processes. */
  function Span(pages: seq<ListingPage>, i: nat): (n: nat)
    ensures i + n <= |pages| || n == 0
    decreases |pages| - i
  {
    if i >= |pages| || pages[i].items == [] then 0
    else if pages[i].next.Enabled? then 1 + Span(pages, i + 1)
    else 1
  }

  /** The contributions `i` to `j - 1`, one after the other. */
  function Joined(parts: seq<seq<Law>>, i: nat, j: nat): seq<Law>
    requires i <= j <= |parts|
    decreases j - i
  {
    if i == j then [] else parts[i] + Joined(parts, i + 1, j)
  }

  // ---- Lemmas ----

  /** One page of the walk that has items. */
  lemma ChainStep(pages: seq<ListingPage>, parts: seq<seq<Law>>, i: nat, url: string)
    requires |parts| == |pages| && i < |pages| && pages[i].items != []
    ensures Chain(pages, parts, i)
            == if pages[i].next.Enabled? then parts[i] + Chain(pages, parts, i + 1) else parts[i]
    ensures WalkEnd(pages, i, url)
            == if pages[i].next.Enabled? then WalkEnd(pages, i + 1, pages[i].next.target)
               else if pages[i].next.LoadFails? then pages[i].next.target
               else url
  {
  }

  /** Joining runs of laws is associative. A helper that keeps the proof of
      `Scraper.Scraper.ExtractLawInfo` cheap, not a property of the scraper. */
  lemma JoinAssoc(a: seq<Law>, b: seq<Law>, c: seq<Law>)
    ensures a + (b + c) == a + b + c
  {
  }

  /** What page `i` contributes. */
  lemma ContributionAt(lawType: string, found: map<string, seq<Reading>>, pages: seq<ListingPage>, i: nat)
    requires i < |pages|
    ensures Contributions(lawType, found, pages)[i] == PageLaws(lawType, found, pages[i])
  {
  }

  /** Collecting two runs of items is collecting each. */
  lemma {:induction false} CollectedAppend(lawType: string, a: seq<ListingItem>, b: seq<ListingItem>)
    ensures Collected(lawType, a + b) == Collected(lawType, a) + Collected(lawType, b)
    decreases |b|
  {
    if b == [] {
      assert a + b == a;
    } else {
      var b0 := b[..|b| - 1];
      assert (a + b)[..|a + b| - 1] == a + b0;
      assert (a + b)[|a + b| - 1] == b[|b| - 1];
      CollectedAppend(lawType, a, b0);
    }
  }

  /** The collected laws are the basic records of the items that have a link with a `p`,
      and only those. */
  lemma {:induction false} CollectedFilter(lawType: string, items: seq<ListingItem>)
    ensures forall law :: law in Collected(lawType, items) <==>
              exists k :: 0 <= k < |items| && Basic(lawType, items[k]) == Some(law)
  {
    forall law
      ensures law in Collected(lawType, items) <==>
              exists k :: 0 <= k < |items| && Basic(lawType, items[k]) == Some(law)
    {
      CollectedHas(lawType, items, law);
      BasesHas(lawType, items, law);
    }
  }

  /** Some item's basic record is `law` exactly when `law` is among the bases. */
  lemma BasesHas(lawType: string, items: seq<ListingItem>, law: Law)
    ensures Some(law) in Bases(lawType, items) <==>
            exists k :: 0 <= k < |items| && Basic(lawType, items[k]) == Some(law)
  {
    var bs := Bases(lawType, items);
    if Some(law) in bs {
      var k :| 0 <= k < |bs| && bs[k] == Some(law);
      assert Basic(lawType, items[k]) == Some(law);
    }
    if exists k :: 0 <= k < |items| && Basic(lawType, items[k]) == Some(law) {
      var k :| 0 <= k < |items| && Basic(lawType, items[k]) == Some(law);
      assert bs[k] == Some(law);
    }
  }

  /** The basic record (or None) of each item, in item order. */
  function Bases(lawType: string, items: seq<ListingItem>): (bs: seq<Option<Law>>)
    ensures |bs| == |items| && forall k :: 0 <= k < |items| ==> bs[k] == Basic(lawType, items[k])
  {
    seq(|items|, k requires 0 <= k < |items| => Basic(lawType, items[k]))
  }

  /** `law` is collected exactly when some item gives it as its basic record. */
  lemma {:induction false} CollectedHas(lawType: string, items: seq<ListingItem>, law: Law)
    ensures law in Collected(lawType, items) <==> Some(law) in Bases(lawType, items)
    decreases |items|
  {
    if items != [] {
      var n := |items| - 1;
      var init := items[..n];
      CollectedHas(lawType, init, law);
      var b := Basic(lawType, items[n]);
      var last := match b case None => [] case Some(l) => [l];
      assert Collected(lawType, items) == Collected(lawType, init) + last;
      assert law in last <==> b == Some(law);
      BasesLast(lawType, items);
    }
  }

  /** The bases of all items are those of all but the last, then the last one's. */
  lemma BasesLast(lawType: string, items: seq<ListingItem>)
    requires items != []
    ensures Bases(lawType, items)
            == Bases(lawType, items[..|items| - 1]) + [Basic(lawType, items[|items| - 1])]
  {
    var n := |items| - 1;
    assert forall k :: 0 <= k < n ==> items[..n][k] == items[k];
  }

  /** Every collected law is visited exactly once, in order, and keeps its type, title and
      URL; its detail page's readings are appended to its own. */
  lemma {:induction false} VisitedKeeps(found: map<string, seq<Reading>>, laws: seq<Law>)
    ensures |Visited(found, laws)| == |laws|
    ensures forall k :: 0 <= k < |laws| ==>
              Visited(found, laws)[k] == laws[k].(readings := laws[k].readings + ReadingsAt(found, laws[k].url))
    decreases |laws|
  {
    if laws != [] {
      VisitedKeeps(found, laws[1..]);
      var v := Visited(found, laws);
      assert v == [Visit(found, laws[0])] + Visited(found, laws[1..]);
      forall k | 0 <= k < |laws|
        ensures v[k] == laws[k].(readings := laws[k].readings + ReadingsAt(found, laws[k].url))
      {
        if k > 0 {
          assert v[k] == Visited(found, laws[1..])[k - 1];
          assert laws[1..][k - 1] == laws[k];
        }
      }
    }
  }

  /** Visiting two runs of laws is visiting each. */
  lemma {:induction false} VisitedAppend(found: map<string, seq<Reading>>, a: seq<Law>, b: seq<Law>)
    ensures Visited(found, a + b) == Visited(found, a) + Visited(found, b)
    decreases |a|
  {
    if a == [] {
      assert a + b == b;
    } else {
      assert (a + b)[0] == a[0] && (a + b)[1..] == a[1..] + b;
      VisitedAppend(found, a[1..], b);
    }
  }

  /** The walk emits the laws of the pages it processes, in page order: exactly the pages
      `i` to `i + Span(pages, i) - 1`. */
  lemma WalkIsPages(lawType: string, found: map<string, seq<Reading>>, pages: seq<ListingPage>, i: nat)
    requires i <= |pages|
    ensures i + Span(pages, i) <= |pages|
    ensures Walk(lawType, found, pages, i)
            == Joined(Contributions(lawType, found, pages), i, i + Span(pages, i))
  {
    ChainIsPages(pages, Contributions(lawType, found, pages), i);
  }

  /** `Chain` joins the contributions of exactly the pages `Span` counts. */
  lemma {:induction false} ChainIsPages(pages: seq<ListingPage>, parts: seq<seq<Law>>, i: nat)
    requires |parts| == |pages| && i <= |pages|
    ensures i + Span(pages, i) <= |pages|
    ensures Chain(pages, parts, i) == Joined(parts, i, i + Span(pages, i))
    decreases |pages| - i
  {
    if i < |pages| && pages[i].items != [] {
      if pages[i].next.Enabled? {
        ChainIsPages(pages, parts, i + 1);
        var j := i + 1 + Span(pages, i + 1);
        assert Span(pages, i) == j - i;
        assert Joined(parts, i, j) == parts[i] + Joined(parts, i + 1, j);
      } else {
        assert Span(pages, i) == 1;
        assert Joined(parts, i + 1, i + 1) == [];
        assert parts[i] + [] == parts[i];
      }
    }
  }

  /** The browser ends on the page that the last processed page's next link led to, when that
      link was clicked (its load went through or raised); otherwise on the last processed page,
      which is the start page or the one the page before it led to. */
  lemma {:induction false} WalkEndAt(pages: seq<ListingPage>, i: nat, url: string)
    requires Span(pages, i) > 0
    ensures var last := i + Span(pages, i) - 1;
            var next := pages[last].next;
            next.Enabled? || next.LoadFails? ==> WalkEnd(pages, i, url) == next.target
    ensures var last := i + Span(pages, i) - 1;
            last > i ==> pages[last - 1].next.Enabled?
    ensures var last := i + Span(pages, i) - 1;
            var next := pages[last].next;
            (!next.Enabled? && !next.LoadFails? ==>
               WalkEnd(pages, i, url) == if last == i then url else pages[last - 1].next.target)
    decreases |pages| - i
  {
    if pages[i].next.Enabled? && Span(pages, i + 1) > 0 {
      WalkEndAt(pages, i + 1, pages[i].next.target);
    }
  }

  /** The walk goes on exactly while pages have items and their next link is followed: the
      pages it processes all have items, all but the last have an enabled next link, and the
      last either has no enabled next link or leads to a page without items. */
  lemma {:induction false} SpanStops(pages: seq<ListingPage>, i: nat)
    requires i <= |pages|
    ensures forall j :: i <= j < i + Span(pages, i) ==> pages[j].items != []
    ensures forall j :: i <= j < i + Span(pages, i) - 1 ==> pages[j].next.Enabled?
    ensures var e := i + Span(pages, i);
            e == |pages| || pages[e].items == [] || !pages[e - 1].next.Enabled?
    decreases |pages| - i
  {
    if i < |pages| && pages[i].items != [] && pages[i].next.Enabled? {
      SpanStops(pages, i + 1);
    }
  }
}
