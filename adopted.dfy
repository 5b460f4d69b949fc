/** The adopted texts ("النصوص المصادق عليها"): the legislature periods offered by the
    "field_legislature_target_id_1" select, and for each period a run of listing pages whose
    items become records carrying the period, the latest "h2.sorting_date" seen and the
    committee named under ".lw-link span". */
module Adopted {
  import opened Text
  import opened Numbers
  import opened Percent

  /** The first legislature year that is scraped. */
  const MinYear := 2011
  const FilterQuery := "?body_value=&field_legislature_target_id_1="
  const FilterTail := "&field_annee_legislative_target_id=All&field_nature_loi_target_id=All"

  /** An `<option>` of the legislature select: its text and its `value` attribute. */
  datatype SelectOption = SelectOption(text: string, value: string)

  /** A Python dict from option text to URL, as its entries in insertion order. */
  type Links = seq<(string, string)>

  /** The listing of the adopted texts of one period. */
  function LegislatureUrl(link: string, value: string): (u: string)
    ensures |u| == |link| + |FilterQuery| + |value| + |FilterTail|
    ensures u[..|link|] == link && u[|u| - |FilterTail|..] == FilterTail
  {
    link + FilterQuery + value + FilterTail
  }

  /** `int(text.strip().split("-")[0])`, None where it raises. */
  function YearOf(text: string): Option<int> {
    ParseInt(SplitFirst(Strip(text), "-"))
  }

  /** The value an entry holds for `key`, None when there is none. */
  function Lookup(d: Links, key: string): Option<string> {
    if d == [] then None else if d[0].0 == key then Some(d[0].1) else Lookup(d[1..], key)
  }

  /** `d[key] = v`: an existing key keeps its place and takes the new value; a new key comes
      last. */
  function Put(d: Links, key: string, v: string): (e: Links)
    ensures |e| == |d| || |e| == |d| + 1
    ensures Lookup(d, key).None? ==> e == d + [(key, v)]
    ensures Lookup(d, key).Some? ==> |e| == |d| && forall i :: 0 <= i < |d| ==> e[i].0 == d[i].0
  {
    if d == [] then [(key, v)]
    else if d[0].0 == key then [(key, v)] + d[1..]
    else [d[0]] + Put(d[1..], key, v)
  }

  /** An option is kept when it holds a value and its year is at least 2011. */
  predicate Kept(o: SelectOption) {
    o.value != [] && YearOf(o.text).Some? && YearOf(o.text).value >= MinYear
  }

  /** An option whose year `int` cannot read, while it holds a value. */
  predicate Unreadable(o: SelectOption) {
    o.value != [] && YearOf(o.text).None?
  }

  /** What one option does to the dict: nothing, raise, or add its text and URL. */
  datatype Verdict = Skip | Fails | Adds(key: string, url: string)

  /** The body of the option loop for `o`. */
  function Judge(link: string, o: SelectOption): (v: Verdict)
    ensures v.Fails? <==> Unreadable(o)
    ensures v.Adds? <==> Kept(o)
    ensures v.Adds? ==> v.key == Strip(o.text) && v.url == LegislatureUrl(link, o.value)
  {
    if o.value == [] then Skip
    else
      match YearOf(o.text)
      case None => Fails
      case Some(y) => if y >= MinYear then Adds(Strip(o.text), LegislatureUrl(link, o.value)) else Skip
  }

  /** The verdicts on the options, in order. */
  function Judged(link: string, opts: seq<SelectOption>): (vs: seq<Verdict>)
    ensures |vs| == |opts|
  {
    seq(|opts|, k requires 0 <= k < |opts| => Judge(link, opts[k]))
  }

  /** The dict the verdicts build, or None once one of them raises. */
  function Fold(vs: seq<Verdict>): Option<Links>
    decreases |vs|
  {
    if vs == [] then Some([])
    else
      match Fold(vs[..|vs| - 1])
      case None => None
      case Some(d) =>
        match vs[|vs| - 1]
        case Skip => Some(d)
        case Fails => None
        case Adds(key, url) => Some(Put(d, key, url))
  }

  /** The options that hold a value contribute; the first whose year does not parse makes
      the whole filter fail. None when `int` raises. */
  function Filter(link: string, opts: seq<SelectOption>): Option<Links> {
    Fold(Judged(link, opts))
  }

  /** `get_legislature_links`: `select` is None when the menu or the select cannot be found;
      every failure yields the empty dict. */
  function LegislatureLinks(link: string, select: Option<seq<SelectOption>>): Links {
    match select
    case None => []
    case Some(opts) =>
      match Filter(link, opts)
      case None => []
      case Some(d) => d
  }

  /** The URL the last verdict adding `key` gives it. */
  function LastAdded(vs: seq<Verdict>, key: string): Option<string>
    decreases |vs|
  {
    if vs == [] then None
    else if vs[|vs| - 1].Adds? && vs[|vs| - 1].key == key then Some(vs[|vs| - 1].url)
    else LastAdded(vs[..|vs| - 1], key)
  }

  /** No key appears twice. */
  predicate DistinctKeys(d: Links) {
    forall i, j :: 0 <= i < j < |d| ==> d[i].0 != d[j].0
  }

  // ---- Lemmas about the filter ----

  /** After `d[key] = v`, `key` holds `v` and every other key what it held. */
  lemma {:induction false} LookupPut(d: Links, key: string, v: string, other: string)
    ensures Lookup(Put(d, key, v), other) == if other == key then Some(v) else Lookup(d, other)
    decreases |d|
  {
    if d != [] && d[0].0 != key {
      LookupPut(d[1..], key, v, other);
      var e := Put(d, key, v);
      assert e[0] == d[0] && e[1..] == Put(d[1..], key, v);
    }
  }

  /** The keys `Put` leaves in place are those of `d`, and `key` is added at most once. */
  lemma {:induction false} PutDistinct(d: Links, key: string, v: string)
    requires DistinctKeys(d)
    ensures DistinctKeys(Put(d, key, v))
    ensures forall i :: 0 <= i < |Put(d, key, v)| ==>
              Put(d, key, v)[i].0 == key || Lookup(d, Put(d, key, v)[i].0).Some?
    decreases |d|
  {
    var e := Put(d, key, v);
    if d == [] {
    } else if d[0].0 == key {
      forall i | 0 <= i < |e| ensures e[i].0 == key || Lookup(d, e[i].0).Some? {
        if i > 0 { KeyAtFound(d, i); }
      }
    } else {
      assert DistinctKeys(d[1..]);
      PutDistinct(d[1..], key, v);
      var t := Put(d[1..], key, v);
      assert e == [d[0]] + t;
      forall i | 0 <= i < |e| ensures e[i].0 == key || Lookup(d, e[i].0).Some? {
        if i > 0 && e[i].0 != key {
          assert e[i] == t[i - 1];
          assert Lookup(d[1..], t[i - 1].0).Some?;
        }
      }
      forall i, j | 0 <= i < j < |e| ensures e[i].0 != e[j].0 {
        if i == 0 {
          assert e[j] == t[j - 1];
          if t[j - 1].0 != key {
            LookupHead(d, t[j - 1].0);
          }
        }
      }
    }
  }

  /** A key stored at index `i` can be looked up. */
  lemma {:induction false} KeyAtFound(d: Links, i: nat)
    requires i < |d|
    ensures Lookup(d, d[i].0).Some?
    decreases i
  {
    if i > 0 && d[0].0 != d[i].0 {
      KeyAtFound(d[1..], i - 1);
    }
  }

  /** A key found in the tail of a dict with distinct keys differs from the head's key. */
  lemma {:induction false} LookupHead(d: Links, key: string)
    requires d != [] && DistinctKeys(d) && Lookup(d[1..], key).Some?
    ensures d[0].0 != key
  {
    var i := KeyIndex(d[1..], key);
    assert d[1..][i] == d[i + 1];
  }

  /** The index at which a found key is stored. */
  function KeyIndex(d: Links, key: string): (i: nat)
    requires Lookup(d, key).Some?
    ensures i < |d| && d[i].0 == key
  {
    if d[0].0 == key then 0 else 1 + KeyIndex(d[1..], key)
  }

  /** The fold fails exactly when some verdict raises. */
  lemma {:induction false} FoldFails(vs: seq<Verdict>)
    ensures Fold(vs).None? <==> exists k :: 0 <= k < |vs| && vs[k].Fails?
    decreases |vs|
  {
    if vs != [] {
      var init := vs[..|vs| - 1];
      FoldFails(init);
      if exists k :: 0 <= k < |init| && init[k].Fails? {
        var k :| 0 <= k < |init| && init[k].Fails?;
        assert vs[k] == init[k];
      }
      if exists k :: 0 <= k < |vs| && vs[k].Fails? {
        var k :| 0 <= k < |vs| && vs[k].Fails?;
        if k < |init| {
          assert init[k] == vs[k];
        }
      }
    }
  }

  /** When the fold succeeds, its keys are distinct and each maps to the URL of the last
      verdict that adds it; no other key is present. */
  lemma {:induction false} FoldHolds(vs: seq<Verdict>, key: string)
    requires Fold(vs).Some?
    ensures DistinctKeys(Fold(vs).value)
    ensures Lookup(Fold(vs).value, key) == LastAdded(vs, key)
    decreases |vs|
  {
    if vs != [] {
      var init := vs[..|vs| - 1];
      FoldHolds(init, key);
      var d := Fold(init).value;
      var v := vs[|vs| - 1];
      if v.Adds? {
        PutDistinct(d, v.key, v.url);
        LookupPut(d, v.key, v.url, key);
      }
    }
  }

  /** The filter fails exactly when some option holding a value has a year `int` cannot
      read: one such option empties the whole result. */
  lemma FilterFails(link: string, opts: seq<SelectOption>)
    ensures Filter(link, opts).None? <==> exists k :: 0 <= k < |opts| && Unreadable(opts[k])
  {
    var vs := Judged(link, opts);
    FoldFails(vs);
    assert forall k :: 0 <= k < |opts| ==> (vs[k].Fails? <==> Unreadable(opts[k]));
  }

  /** When the filter succeeds, its keys are distinct and each key maps to the URL of the
      last option judged to add it (`Judge` adds exactly the kept options, under their
      stripped text); no other key is present. */
  lemma FilterHolds(link: string, opts: seq<SelectOption>, key: string)
    requires Filter(link, opts).Some?
    ensures DistinctKeys(Filter(link, opts).value)
    ensures Lookup(Filter(link, opts).value, key) == LastAdded(Judged(link, opts), key)
  {
    FoldHolds(Judged(link, opts), key);
  }

  /** An option titled by a year, a dash and the rest of the period (as "2021-2026"),
      blanks before it allowed, reads that year; it is kept exactly when it holds a value
      and the year is at least 2011. */
  lemma YearOfPeriod(pad: string, n: nat, rest: string, value: string)
    requires forall i :: 0 <= i < |pad| ==> IsSpace(pad[i])
    ensures YearOf(pad + Decimal(n) + "-" + rest) == Some(n)
    ensures Kept(SelectOption(pad + Decimal(n) + "-" + rest, value)) <==> value != [] && n >= MinYear
  {
    var ds := Decimal(n);
    var o := SelectOption(pad + ds + "-" + rest, value);
    YearOfDigits(pad, ds, rest);
    ParseIntOfDecimal(n, []);
    assert [] + ds + [] == ds;
    KeptOfYear(o, n);
  }

  /** An option whose year reads `n` is kept exactly when it holds a value and `n` is at
      least 2011. A helper split out of `YearOfPeriod` to keep that proof small, not a
      property of its own. */
  lemma KeptOfYear(o: SelectOption, n: int)
    ensures YearOf(o.text) == Some(n) ==> (Kept(o) <==> o.value != [] && n >= MinYear)
  {
  }

  /** The year of blanks, a digit string, a dash and a rest is what `int` reads from the
      digits. */
  lemma YearOfDigits(pad: string, ds: string, rest: string)
    requires forall i :: 0 <= i < |pad| ==> IsSpace(pad[i])
    requires ds != [] && AllDigits(ds)
    ensures YearOf(pad + ds + "-" + rest) == ParseInt(ds)
  {
    var r := Strip(pad + ds + "-" + rest);
    StripDashed(pad, ds, rest);
    assert r[..|ds|] == ds;
    SplitAtFirstDash(r, |ds|);
  }

  /** Stripping blanks, a digit string, a dash and a rest leaves the digits and the dash
      at its front. */
  lemma StripDashed(pad: string, ds: string, rest: string)
    requires forall i :: 0 <= i < |pad| ==> IsSpace(pad[i])
    requires ds != [] && AllDigits(ds)
    ensures var r := Strip(pad + ds + "-" + rest);
            |ds| < |r| && (forall j :: 0 <= j < |ds| ==> r[j] == ds[j]) && r[|ds|] == '-'
  {
    var t := pad + ds + "-" + rest;
    var p := |pad|;
    var q := p + |ds|;
    assert forall i :: 0 <= i < p ==> t[i] == pad[i];
    assert forall j :: 0 <= j < |ds| ==> t[p + j] == ds[j];
    assert t[p] == ds[0] && t[q] == '-';
    StripFront(t, p, q);
  }

  /** `t.split("-")[0]` is the text before the first dash. */
  lemma SplitAtFirstDash(t: string, k: nat)
    requires k < |t| && t[k] == '-' && AllDigits(t[..k])
    ensures SplitFirst(t, "-") == t[..k]
  {
    assert OccursAt(t, "-", k);
    ContainsIff(t, "-");
    var r := SplitFirst(t, "-");
    assert forall j :: 0 <= j < k ==> t[j] == t[..k][j];
    assert t[|r|..|r| + 1] == "-";
    assert t[|r|] == '-';
    ContainsIff(r, "-");
    if |r| > k {
      assert false;
    }
  }

  /** The index of the verdict `LastAdded` takes its URL from. */
  function LastAddedAt(vs: seq<Verdict>, key: string): (k: nat)
    requires LastAdded(vs, key).Some?
    ensures k < |vs| && vs[k].Adds? && vs[k].key == key && LastAdded(vs, key) == Some(vs[k].url)
    decreases |vs|
  {
    if vs[|vs| - 1].Adds? && vs[|vs| - 1].key == key then |vs| - 1
    else LastAddedAt(vs[..|vs| - 1], key)
  }

  /** `LastAdded` finds the last verdict adding `key`, and finds nothing when none does. */
  lemma {:induction false} LastAddedIs(vs: seq<Verdict>, key: string)
    ensures LastAdded(vs, key).None? <==> forall k :: 0 <= k < |vs| ==> !(vs[k].Adds? && vs[k].key == key)
    ensures LastAdded(vs, key).Some? ==>
              forall m :: LastAddedAt(vs, key) < m < |vs| ==> !(vs[m].Adds? && vs[m].key == key)
    decreases |vs|
  {
    if vs != [] {
      var init := vs[..|vs| - 1];
      LastAddedIs(init, key);
      assert forall k :: 0 <= k < |init| ==> init[k] == vs[k];
    }
  }

  /** `get_legislature_links`: each option is judged, then the verdicts are folded into
      the dict in option order. */
  method GetLegislatureLinks(link: string, select: Option<seq<SelectOption>>) returns (links: Links)
    ensures links == LegislatureLinks(link, select)
  {
    if select.None? {
      return [];
    }
    var built := FoldVerdicts(Judged(link, select.value));
    links := if built.None? then [] else built.value;
  }

  /** The option loop: entries are put in verdict order, and the first failing verdict
      abandons the dict. */
  method FoldVerdicts(vs: seq<Verdict>) returns (r: Option<Links>)
    ensures r == Fold(vs)
  {
    var links: Links := [];
    var k := 0;
    while k < |vs|
      invariant k <= |vs|
      invariant Fold(vs[..k]) == Some(links)
    {
      FoldStep(vs, k);
      match vs[k] {
        case Skip =>
        case Fails =>
          FoldStaysFailed(vs, k + 1);
          return None;
        case Adds(key, url) =>
          links := Put(links, key, url);
      }
      k := k + 1;
    }
    assert vs[..k] == vs;
    return Some(links);
  }

  /** One more verdict, folded. */
  lemma FoldStep(vs: seq<Verdict>, k: nat)
    requires k < |vs|
    ensures Fold(vs[..k + 1]) == match Fold(vs[..k])
                                 case None => None
                                 case Some(d) =>
                                   match vs[k]
                                   case Skip => Some(d)
                                   case Fails => None
                                   case Adds(key, url) => Some(Put(d, key, url))
  {
    assert vs[..k + 1][..k] == vs[..k];
  }

  /** Once a prefix of the verdicts fails, so do all of them. */
  lemma FoldStaysFailed(vs: seq<Verdict>, k: nat)
    requires k <= |vs| && Fold(vs[..k]).None?
    ensures Fold(vs).None?
  {
    FoldFails(vs[..k]);
    var j :| 0 <= j < k && vs[..k][j].Fails?;
    assert vs[j] == vs[..k][j];
    FoldFails(vs);
  }

  // ---- Adopted-law records ----

  /** The "h3.questionss_group a" of an item: its `href` attribute (None when absent) and its
      text. */
  datatype AdoptedLink = AdoptedLink(href: Option<string>, text: string)

  /** An item: its link (None when missing) and the text of its ".lw-link span" (None when
      missing). */
  datatype AdoptedItem = AdoptedItem(link: Option<AdoptedLink>, commission: Option<string>)

  /** The next link: absent, present with a click that raises, or present with a click that
      leads to the following page. */
  datatype AdoptedNext = NoLink | ClickFails | Follows

  /** A page: the texts of its "h2.sorting_date" headings, its items and its next link. */
  datatype AdoptedPage = AdoptedPage(dates: seq<string>, items: seq<AdoptedItem>, next: AdoptedNext)

  datatype AdoptedLaw = AdoptedLaw(title: string, url: string, date: Option<string>,
                                   period: string, commission: string)

  /** The title of a link: its stripped text, or when that is empty and `href` is not, the
      percent-decoded last "/" segment of `href`. */
  function TitleOf(l: AdoptedLink): string {
    var t := Strip(l.text);
    if t == [] && l.href.Some? && l.href.value != [] then Unquote(SplitLast(l.href.value, "/"))
    else t
  }

  /** The record of an item, or None when the item is skipped: its link or its committee
      span is missing (the lookup raises), or its `href` or title is empty. */
  function Record(item: AdoptedItem, date: Option<string>, period: string): (r: Option<AdoptedLaw>)
    ensures r.Some? <==> item.link.Some? && item.commission.Some? && item.link.value.href.Some?
                           && item.link.value.href.value != [] && TitleOf(item.link.value) != []
    ensures r.Some? ==> r.value == AdoptedLaw(TitleOf(item.link.value), item.link.value.href.value,
                                              date, period, Strip(item.commission.value))
  {
    match item.link
    case None => None
    case Some(l) =>
      match item.commission
      case None => None
      case Some(c) =>
        var title := TitleOf(l);
        if l.href.Some? && l.href.value != [] && title != [] then
          Some(AdoptedLaw(title, l.href.value, date, period, Strip(c)))
        else None
  }

  /** The records of a page's items, in item order, all dated `date`. */
  function Records(items: seq<AdoptedItem>, date: Option<string>, period: string): (rs: seq<AdoptedLaw>)
    ensures |rs| <= |items|
    ensures forall k :: 0 <= k < |rs| ==>
              rs[k].date == date && rs[k].period == period && rs[k].url != [] && rs[k].title != []
    decreases |items|
  {
    if items == [] then []
    else
      Records(items[..|items| - 1], date, period)
        + match Record(items[|items| - 1], date, period) case None => [] case Some(r) => [r]
  }

  /** The date in force once a page is read: the stripped text of its last date heading, or
      the one carried over when it has none. */
  function PageDate(page: AdoptedPage, last: Option<string>): Option<string> {
    if page.dates == [] then last else Some(Strip(page.dates[|page.dates| - 1]))
  }

  /** The records of one period's walk from page `i`, with `last` the date carried over;
      None when a page without items is reached (the wait for items raises and the
      exception leaves the whole extraction). A missing or failing next link ends the walk;
      past the last modelled page there are no items. */
  function PeriodWalk(pages: seq<AdoptedPage>, i: nat, last: Option<string>, period: string)
    : Option<seq<AdoptedLaw>>
    decreases |pages| - i
  {
    if i >= |pages| || pages[i].items == [] then None
    else
      var date := PageDate(pages[i], last);
      var here := Records(pages[i].items, date, period);
      if pages[i].next.Follows? then
        match PeriodWalk(pages, i + 1, date, period)
        case None => None
        case Some(rest) => Some(here + rest)
      else Some(here)
  }

  /** The latest date heading on `pages`, stripped, or None when none has any. */
  function LatestDate(pages: seq<AdoptedPage>): Option<string>
    decreases |pages|
  {
    if pages == [] then None
    else
      var p := pages[|pages| - 1];
      if p.dates != [] then Some(Strip(p.dates[|p.dates| - 1])) else LatestDate(pages[..|pages| - 1])
  }

  /** The records of the walk from page `i`, each page's items dated by the latest heading on
      the pages up to and including it. */
  function DatedWalk(pages: seq<AdoptedPage>, i: nat, period: string): Option<seq<AdoptedLaw>>
    decreases |pages| - i
  {
    if i >= |pages| || pages[i].items == [] then None
    else
      var here := Records(pages[i].items, LatestDate(pages[..i + 1]), period);
      if pages[i].next.Follows? then
        match DatedWalk(pages, i + 1, period)
        case None => None
        case Some(rest) => Some(here + rest)
      else Some(here)
  }

  /** One period: the records of its listing, None when its URL cannot be loaded. The date
      starts afresh for each period. */
  function PeriodLaws(site: map<string, seq<AdoptedPage>>, entry: (string, string)): Option<seq<AdoptedLaw>> {
    if entry.1 in site then PeriodWalk(site[entry.1], 0, None, entry.0) else None
  }

  /** The records of the periods, in dict order; None once one of them raises. */
  function AllPeriods(site: map<string, seq<AdoptedPage>>, links: Links): Option<seq<AdoptedLaw>>
    decreases |links|
  {
    if links == [] then Some([])
    else
      match AllPeriods(site, links[..|links| - 1])
      case None => None
      case Some(acc) =>
        match PeriodLaws(site, links[|links| - 1])
        case None => None
        case Some(more) => Some(acc + more)
  }

  /** `extract_adopted_law_info`: None when it raises. */
  function AdoptedLaws(link: string, select: Option<seq<SelectOption>>,
                       site: map<string, seq<AdoptedPage>>): Option<seq<AdoptedLaw>> {
    AllPeriods(site, LegislatureLinks(link, select))
  }

  // ---- Lemmas about the records ----

  /** With a blank text, the title is the segment after the last "/" decoded: a link whose
      last segment spells `name` with each character kept (`literal`) or escaped byte by
      byte is titled `name`. */
  lemma TitleFromHref(text: string, prefix: string, name: string, literal: seq<bool>)
    requires Strip(text) == []
    requires |literal| == |name|
    requires forall i :: 0 <= i < |name| && literal[i] ==> SegmentChar(name[i])
    ensures TitleOf(AdoptedLink(Some(prefix + "/" + MixedEncode(name, literal)), text)) == name
  {
    var e := MixedEncode(name, literal);
    assert '/' !in e;
    SplitLastAfterChar(prefix, '/', e);
    assert prefix + "/" + e == prefix + ['/'] + e;
    UnquoteMixed(name, literal);
  }

  /** The date in force after page `i` is the latest heading up to page `i`. */
  lemma PageDateIsLatest(pages: seq<AdoptedPage>, i: nat)
    requires i < |pages|
    ensures PageDate(pages[i], LatestDate(pages[..i])) == LatestDate(pages[..i + 1])
  {
    assert pages[..i + 1][..i] == pages[..i];
  }

  /** Carrying `last_date` from page to page dates every page's records by the latest
      heading seen so far in the period; at the first page nothing is carried. */
  lemma {:induction false} DateCarried(pages: seq<AdoptedPage>, i: nat, period: string)
    requires i <= |pages|
    ensures PeriodWalk(pages, i, LatestDate(pages[..i]), period) == DatedWalk(pages, i, period)
    decreases |pages| - i
  {
    if i < |pages| && pages[i].items != [] {
      PageDateIsLatest(pages, i);
      if pages[i].next.Follows? {
        DateCarried(pages, i + 1, period);
      }
    }
  }

  /** Each period's walk starts without a date. */
  lemma PeriodStartsUndated(pages: seq<AdoptedPage>, period: string)
    ensures PeriodWalk(pages, 0, None, period) == DatedWalk(pages, 0, period)
  {
    assert pages[..0] == [];
    DateCarried(pages, 0, period);
  }

  /** The records of pages `i` up to `j`, in page order, each page's items dated by the
      latest heading on the pages up to and including it. */
  function DatedRun(pages: seq<AdoptedPage>, i: nat, j: nat, period: string): seq<AdoptedLaw>
    requires i <= j <= |pages|
    decreases j - i
  {
    if i == j then [] else DatedPage(pages, i, period) + DatedRun(pages, i + 1, j, period)
  }

  /** Pages `i` up to `k` all show items and a next link that is followed. */
  predicate Clicks(pages: seq<AdoptedPage>, i: nat, k: nat)
    requires k <= |pages|
  {
    forall m :: i <= m < k ==> pages[m].items != [] && pages[m].next.Follows?
  }

  /** The walk ends at page `k`: it shows items and no next link is followed. */
  predicate StopsAt(pages: seq<AdoptedPage>, k: nat) {
    k < |pages| && pages[k].items != [] && !pages[k].next.Follows?
  }

  /** The records of page `i` as the walk dates them. */
  function DatedPage(pages: seq<AdoptedPage>, i: nat, period: string): seq<AdoptedLaw>
    requires i < |pages|
  {
    Records(pages[i].items, LatestDate(pages[..i + 1]), period)
  }

  /** One page of the dated walk. */
  lemma DatedWalkStep(pages: seq<AdoptedPage>, i: nat, period: string)
    requires i < |pages| && pages[i].items != []
    ensures DatedWalk(pages, i, period)
              == if pages[i].next.Follows? then Prepend(DatedPage(pages, i, period), DatedWalk(pages, i + 1, period))
                 else Some(DatedPage(pages, i, period))
  {
  }

  /** One page of a run. */
  lemma DatedRunStep(pages: seq<AdoptedPage>, i: nat, j: nat, period: string)
    requires i < j <= |pages|
    ensures DatedRun(pages, i, j, period) == DatedPage(pages, i, period) + DatedRun(pages, i + 1, j, period)
  {
  }

  /** Clicking through to page `k`, where the next link is missing or fails, gives the
      records of every page up to and including `k`. */
  lemma {:induction false} DatedWalkStops(pages: seq<AdoptedPage>, i: nat, k: nat, period: string)
    requires i <= k && StopsAt(pages, k) && Clicks(pages, i, k)
    ensures DatedWalk(pages, i, period) == Some(DatedRun(pages, i, k + 1, period))
    decreases k - i
  {
    DatedWalkStep(pages, i, period);
    DatedRunStep(pages, i, k + 1, period);
    if i < k {
      DatedWalkStops(pages, i + 1, k, period);
    } else {
      assert DatedPage(pages, i, period) + [] == DatedPage(pages, i, period);
    }
  }

  /** Clicking through to a page `k` without items, or past the last page, fails the walk. */
  lemma {:induction false} DatedWalkFails(pages: seq<AdoptedPage>, i: nat, k: nat, period: string)
    requires i <= k <= |pages| && Clicks(pages, i, k) && (k == |pages| || pages[k].items == [])
    ensures DatedWalk(pages, i, period) == None
    decreases k - i
  {
    if i < k {
      assert pages[i].items != [] && pages[i].next.Follows?;
      assert Clicks(pages, i + 1, k);
      DatedWalkStep(pages, i, period);
      DatedWalkFails(pages, i + 1, k, period);
    }
  }

  /** A walk that yields records stops at some page `k` after clicking through every page
      before it, and yields the records of pages up to and including `k`. */
  lemma {:induction false} DatedWalkShape(pages: seq<AdoptedPage>, i: nat, period: string)
    requires DatedWalk(pages, i, period).Some?
    ensures exists k: nat :: i <= k && StopsAt(pages, k) && Clicks(pages, i, k)
                             && DatedWalk(pages, i, period) == Some(DatedRun(pages, i, k + 1, period))
    decreases |pages| - i
  {
    assert i < |pages| && pages[i].items != [];
    DatedWalkStep(pages, i, period);
    if !pages[i].next.Follows? {
      DatedRunStep(pages, i, i + 1, period);
      assert DatedPage(pages, i, period) + [] == DatedPage(pages, i, period);
      assert StopsAt(pages, i) && Clicks(pages, i, i);
    } else {
      DatedWalkShape(pages, i + 1, period);
      var k: nat :| i + 1 <= k && StopsAt(pages, k) && Clicks(pages, i + 1, k)
                    && DatedWalk(pages, i + 1, period) == Some(DatedRun(pages, i + 1, k + 1, period));
      DatedRunStep(pages, i, k + 1, period);
      assert Clicks(pages, i, k);
    }
  }

  /** A period whose walk clicks through pages `0` up to `k` and stops there gives exactly
      the records of pages `0` up to and including `k`, each dated by the latest heading so far. */
  lemma PeriodWalkStops(pages: seq<AdoptedPage>, k: nat, period: string)
    requires StopsAt(pages, k) && Clicks(pages, 0, k)
    ensures PeriodWalk(pages, 0, None, period) == Some(DatedRun(pages, 0, k + 1, period))
  {
    PeriodStartsUndated(pages, period);
    DatedWalkStops(pages, 0, k, period);
  }

  /** A period whose walk clicks through to a page without items, or past the last page,
      makes the whole extraction fail. */
  lemma PeriodWalkFails(pages: seq<AdoptedPage>, k: nat, period: string)
    requires k <= |pages| && Clicks(pages, 0, k) && (k == |pages| || pages[k].items == [])
    ensures PeriodWalk(pages, 0, None, period) == None
  {
    PeriodStartsUndated(pages, period);
    DatedWalkFails(pages, 0, k, period);
  }

  /** Conversely, every period walk that yields records is of the shape of `PeriodWalkStops`. */
  lemma PeriodWalkShape(pages: seq<AdoptedPage>, period: string)
    requires PeriodWalk(pages, 0, None, period).Some?
    ensures exists k: nat :: StopsAt(pages, k) && Clicks(pages, 0, k)
                             && PeriodWalk(pages, 0, None, period) == Some(DatedRun(pages, 0, k + 1, period))
  {
    PeriodStartsUndated(pages, period);
    DatedWalkShape(pages, 0, period);
  }

  // ---- The extraction loops ----

  /** The item loop of one page. */
  method ReadAdoptedPage(items: seq<AdoptedItem>, date: Option<string>, period: string)
    returns (rs: seq<AdoptedLaw>)
    ensures rs == Records(items, date, period)
  {
    rs := [];
    for k := 0 to |items|
      invariant rs == Records(items[..k], date, period)
    {
      assert items[..k + 1][..k] == items[..k];
      var r := Record(items[k], date, period);
      if r.Some? {
        rs := rs + [r.value];
      }
    }
    assert items[..|items|] == items;
  }

  /** `acc` followed by what `rest` yields, when it yields anything. */
  function Prepend(acc: seq<AdoptedLaw>, rest: Option<seq<AdoptedLaw>>): Option<seq<AdoptedLaw>> {
    match rest
    case None => None
    case Some(more) => Some(acc + more)
  }

  /** The page loop of one period, carrying the last date seen. */
  method WalkPeriod(pages: seq<AdoptedPage>, period: string) returns (r: Option<seq<AdoptedLaw>>)
    ensures r == PeriodWalk(pages, 0, None, period)
  {
    var i := 0;
    var last: Option<string> := None;
    var acc: seq<AdoptedLaw> := [];
    PrependNothing(PeriodWalk(pages, 0, None, period));
    while true
      invariant PeriodWalk(pages, 0, None, period) == Prepend(acc, PeriodWalk(pages, i, last, period))
      decreases |pages| - i
    {
      if i >= |pages| || pages[i].items == [] {
        return None;
      }
      var before := acc;
      ghost var carried := last;
      last := PageDate(pages[i], last);
      var here := ReadAdoptedPage(pages[i].items, last, period);
      PeriodStep(pages, i, carried, period);
      acc := acc + here;
      if !pages[i].next.Follows? {
        return Some(acc);
      }
      PrependJoin(before, here, PeriodWalk(pages, i + 1, last, period));
      i := i + 1;
    }
  }

  /** Prepending nothing changes nothing. */
  lemma PrependNothing(rest: Option<seq<AdoptedLaw>>)
    ensures Prepend([], rest) == rest
  {
    if rest.Some? {
      assert [] + rest.value == rest.value;
    }
  }

  /** One page of the walk: its records, then the walk from the next page when the next
      link is followed. */
  lemma PeriodStep(pages: seq<AdoptedPage>, i: nat, last: Option<string>, period: string)
    requires i < |pages| && pages[i].items != []
    ensures var date := PageDate(pages[i], last);
            var here := Records(pages[i].items, date, period);
            PeriodWalk(pages, i, last, period)
              == if pages[i].next.Follows? then Prepend(here, PeriodWalk(pages, i + 1, date, period))
                 else Some(here)
  {
  }

  /** Prepending twice is prepending the joined runs. */
  lemma PrependJoin(a: seq<AdoptedLaw>, b: seq<AdoptedLaw>, rest: Option<seq<AdoptedLaw>>)
    ensures Prepend(a, Prepend(b, rest)) == Prepend(a + b, rest)
  {
    if rest.Some? {
      assert a + (b + rest.value) == a + b + rest.value;
    }
  }

  /** `extract_adopted_law_info`: the periods in dict order, each walked from its first
      page; None when any step raises. */
  method ExtractAdoptedLawInfo(link: string, select: Option<seq<SelectOption>>,
                               site: map<string, seq<AdoptedPage>>)
    returns (r: Option<seq<AdoptedLaw>>)
    ensures r == AdoptedLaws(link, select, site)
  {
    var links := GetLegislatureLinks(link, select);
    r := WalkPeriods(site, links);
  }

  /** The period loop over the dict's entries. */
  method WalkPeriods(site: map<string, seq<AdoptedPage>>, links: Links) returns (r: Option<seq<AdoptedLaw>>)
    ensures r == AllPeriods(site, links)
  {
    var laws: seq<AdoptedLaw> := [];
    for k := 0 to |links|
      invariant AllPeriods(site, links[..k]) == Some(laws)
    {
      PeriodsStep(site, links, k);
      var (period, url) := links[k];
      if url !in site {
        AllPeriodsStaysFailed(site, links, k + 1);
        return None;
      }
      var more := WalkPeriod(site[url], period);
      if more.None? {
        AllPeriodsStaysFailed(site, links, k + 1);
        return None;
      }
      laws := laws + more.value;
    }
    assert links[..|links|] == links;
    return Some(laws);
  }

  /** One more period, walked. */
  lemma PeriodsStep(site: map<string, seq<AdoptedPage>>, links: Links, k: nat)
    requires k < |links|
    ensures AllPeriods(site, links[..k + 1])
            == match AllPeriods(site, links[..k])
               case None => None
               case Some(acc) => Prepend(acc, PeriodLaws(site, links[k]))
  {
    assert links[..k + 1][..k] == links[..k];
  }

  /** Once the periods up to `k` fail, so do all of them. */
  lemma {:induction false} AllPeriodsStaysFailed(site: map<string, seq<AdoptedPage>>, links: Links, k: nat)
    requires k <= |links| && AllPeriods(site, links[..k]).None?
    ensures AllPeriods(site, links).None?
    decreases |links| - k
  {
    if k < |links| {
      assert links[..k + 1][..k] == links[..k];
      AllPeriodsStaysFailed(site, links, k + 1);
    } else {
      assert links[..k] == links;
    }
  }
}
