/** The scraper object: the browser's location (`current`), the laws of the listing walk
    (`laws`) and the links of the "التشريع" menu (`legislationLinks`). Navigation is modelled
    by assigning `current`; a page's content is a value handed to the method that reads it. */
module Scraper {
  import opened Text
  import opened Readings
  import opened Listing

  const ProjetsText := "مشاريع القوانين"
  const PropositionsText := "مقترحات القوانين"
  const AdoptedText := "النصوص المصادق عليها"

  /** The `legislation_links` dict; `lastPage` is never set. */
  datatype LegislationLinks = LegislationLinks(projets: Option<string>, propositions: Option<string>,
                                               adopted: Option<string>, lastPage: Option<string>)

  const NoLinks := LegislationLinks(None, None, None, None)

  /** A "ul.multi-column-dropdown li a": its `href` attribute and its `innerText` attribute
      (None when the attribute is absent, so that `.strip()` raises). */
  datatype MenuLink = MenuLink(href: Option<string>, text: Option<string>)

  /** The home page's menu: the ".dropdown-menu.multi-column.columns-3" never appears, or it
      does but the "التشريع" dropdown cannot be found, or the dropdown's links. */
  datatype Menu = NoMenu | NoDropdown | Dropdown(links: seq<MenuLink>)

  /** Which field a menu link sets. */
  datatype Target = Projets | Propositions | AdoptedTexts | Other

  /** The `if`/`elif` chain on a link's stripped text: the first phrase it contains wins. */
  function TargetOf(text: string): Target {
    if Contains(text, ProjetsText) then Projets
    else if Contains(text, PropositionsText) then Propositions
    else if Contains(text, AdoptedText) then AdoptedTexts
    else Other
  }

  /** The target of a menu link; a link whose text cannot be read is skipped. */
  function LinkTarget(l: MenuLink): Target {
    match l.text
    case None => Other
    case Some(t) => TargetOf(Strip(t))
  }

  /** The field of `ls` that `t` names, None for `Other`. */
  function Field(ls: LegislationLinks, t: Target): Option<string> {
    match t
    case Projets => ls.projets
    case Propositions => ls.propositions
    case AdoptedTexts => ls.adopted
    case Other => None
  }

  /** One pass of the link loop. */
  function ApplyLink(ls: LegislationLinks, l: MenuLink): LegislationLinks {
    match LinkTarget(l)
    case Projets => ls.(projets := l.href)
    case Propositions => ls.(propositions := l.href)
    case AdoptedTexts => ls.(adopted := l.href)
    case Other => ls
  }

  /** The link loop over `links`, from `ls`. */
  function ApplyLinks(ls: LegislationLinks, links: seq<MenuLink>): LegislationLinks
    decreases |links|
  {
    if links == [] then ls else ApplyLink(ApplyLinks(ls, links[..|links| - 1]), links[|links| - 1])
  }

  /** The `href` of the last link that targets `t`, or None when no link does. */
  function LastHref(links: seq<MenuLink>, t: Target): Option<Option<string>>
    decreases |links|
  {
    if links == [] then None
    else if LinkTarget(links[|links| - 1]) == t then Some(links[|links| - 1].href)
    else LastHref(links[..|links| - 1], t)
  }

  /** Each field ends up with the `href` of the last link that targets it (even when that
      `href` is absent), and keeps its value when no link does; `lastPage` is untouched. */
  lemma {:induction false} LastLinkWins(ls: LegislationLinks, links: seq<MenuLink>, t: Target)
    requires t != Other
    ensures Field(ApplyLinks(ls, links), t) == match LastHref(links, t) case None => Field(ls, t) case Some(h) => h
    ensures ApplyLinks(ls, links).lastPage == ls.lastPage
    decreases |links|
  {
    if links != [] {
      LastLinkWins(ls, links[..|links| - 1], t);
    }
  }

  /** Collecting the basic records of a page's items, in item order. */
  method CollectLaws(lawType: string, items: seq<ListingItem>) returns (pageLaws: seq<Law>)
    ensures pageLaws == Collected(lawType, items)
  {
    pageLaws := [];
    for k := 0 to |items|
      invariant pageLaws == Collected(lawType, items[..k])
    {
      assert items[..k + 1][..k] == items[..k];
      var law := Basic(lawType, items[k]);
      if law.Some? {
        pageLaws := pageLaws + [law.value];
      }
    }
    assert items[..|items|] == items;
  }

  class Scraper {
    /** The URL the browser shows. */
    var current: string
    /** The laws gathered by the listing walk. */
    var laws: seq<Law>
    /** Set by the first call of `GetLegislationLinks`. */
    var legislationLinks: Option<LegislationLinks>

    /** The scraper once the browser shows `url`. */
    constructor (url: string)
      ensures current == url && laws == [] && legislationLinks.None?
    {
      current := url;
      laws := [];
      legislationLinks := None;
    }

    /** `get_legislation_links`: None when it returns the empty dict. The field is reset once
        the menu appears, then each readable link whose text names a category sets that
        category's link; the browser does not move. */
    method GetLegislationLinks(menu: Menu) returns (r: Option<LegislationLinks>)
      modifies this
      ensures current == old(current) && laws == old(laws)
      ensures menu.NoMenu? ==> legislationLinks == old(legislationLinks) && r.None?
      ensures menu.NoDropdown? ==> legislationLinks == Some(NoLinks) && r.None?
      ensures menu.Dropdown? ==> legislationLinks == Some(ApplyLinks(NoLinks, menu.links))
                                 && r == legislationLinks
    {
      if menu.NoMenu? {
        return None;
      }
      var ls := NoLinks;
      legislationLinks := Some(ls);
      if menu.NoDropdown? {
        return None;
      }
      var links := menu.links;
      for k := 0 to |links|
        invariant legislationLinks == Some(ls) && ls == ApplyLinks(NoLinks, links[..k])
        invariant current == old(current) && laws == old(laws)
      {
        assert links[..k + 1][..k] == links[..k];
        ls := ApplyLink(ls, links[k]);
        legislationLinks := Some(ls);
      }
      assert links[..|links|] == links;
      r := legislationLinks;
    }

    /** The visit of one collected law: the browser goes to its URL, its readings are read
        when the page loads, the law is appended whether or not that succeeds, and the
        browser goes back to the listing page `listingUrl`. */
    method ProcessLaw(law: Law, site: map<string, DetailPage>, listingUrl: string)
      modifies this
      ensures laws == old(laws) + [Visit(SiteReadings(site), law)]
      ensures current == listingUrl && legislationLinks == old(legislationLinks)
    {
      var visited := law;
      if law.url.Some? {
        current := law.url.value;
        if current in site {
          var readings := ReadDetail(site[current]);
          assert SiteReadings(site)[current] == readings;
          visited := law.(readings := law.readings + readings);
        }
      }
      assert visited == Visit(SiteReadings(site), law) by {
        if !(law.url.Some? && law.url.value in site) {
          assert law.readings + [] == law.readings;
        }
      }
      laws := laws + [visited];
      current := listingUrl;
    }

    /** One listing page: its items' basic records are collected, then each is visited; the
        browser ends on the listing page. */
    method ProcessPage(lawType: string, site: map<string, DetailPage>, page: ListingPage)
      modifies this
      ensures laws == old(laws) + PageLaws(lawType, SiteReadings(site), page)
      ensures current == old(current) && legislationLinks == old(legislationLinks)
    {
      var pageLaws := CollectLaws(lawType, page.items);
      VisitAll(pageLaws, site, current);
    }

    /** The loop over the collected laws of a page shown at `listingUrl`. */
    method VisitAll(pageLaws: seq<Law>, site: map<string, DetailPage>, listingUrl: string)
      requires current == listingUrl
      modifies this
      ensures laws == old(laws) + Visited(SiteReadings(site), pageLaws)
      ensures current == listingUrl && legislationLinks == old(legislationLinks)
    {
      ghost var found := SiteReadings(site);
      for k := 0 to |pageLaws|
        invariant laws == old(laws) + Visited(found, pageLaws[..k])
        invariant current == listingUrl && legislationLinks == old(legislationLinks)
      {
        VisitedAppend(found, pageLaws[..k], [pageLaws[k]]);
        assert pageLaws[..k + 1] == pageLaws[..k] + [pageLaws[k]];
        ProcessLaw(pageLaws[k], site, listingUrl);
      }
      assert pageLaws[..|pageLaws|] == pageLaws;
    }

    /** `extract_law_info`: `pages[i]` is the listing after `i` clicks on the link "التالي",
        and the browser starts on the first. The walk ends at a page without items or at a
        next link that is not followed; `laws` then holds every law of the pages walked, in
        page and item order, and the browser is where `WalkEnd` says: on the last listing page
        walked, or on the page its next link led to when that page was left unprocessed. */
    method ExtractLawInfo(lawType: string, site: map<string, DetailPage>, pages: seq<ListingPage>)
      modifies this
      ensures laws == Walk(lawType, SiteReadings(site), pages, 0)
      ensures current == WalkEnd(pages, 0, old(current))
      ensures legislationLinks == old(legislationLinks)
    {
      ghost var found := SiteReadings(site);
      ghost var parts := Contributions(lawType, found, pages);
      laws := [];
      var i := 0;
      while true
        invariant Chain(pages, parts, 0) == laws + Chain(pages, parts, i)
        invariant WalkEnd(pages, 0, old(current)) == WalkEnd(pages, i, current)
        invariant legislationLinks == old(legislationLinks)
        decreases |pages| - i
      {
        if i >= |pages| || pages[i].items == [] {
          assert laws + [] == laws;
          return;
        }
        var before := laws;
        ProcessPage(lawType, site, pages[i]);
        ContributionAt(lawType, found, pages, i);
        ChainStep(pages, parts, i, current);
        if !pages[i].next.Enabled? {
          if pages[i].next.LoadFails? {
            current := pages[i].next.target;
          }
          return;
        }
        assert laws == before + parts[i];
        JoinAssoc(before, parts[i], Chain(pages, parts, i + 1));
        current := pages[i].next.target;
        i := i + 1;
      }
    }
  }
}
