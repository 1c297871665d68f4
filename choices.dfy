/**
 * The page and site choices of the page-link dropdown
 * (`update_site_and_page_choices` in cms/forms/utils.py, without its cache writes).
 *
 * The draft titles, already joined with their page and site and ordered by page
 * path, are grouped site -> page -> language. Each page shows the title of the first
 * language of the expanded fallback order that has one, indented by the page's depth.
 */
module Choices {
  import opened Common
  import Languages

  /** One draft title with the fields of its page and site the builder reads. */
  datatype TitleRow = TitleRow(
    sitePk: int,       // title.page.site.pk
    siteName: string,  // title.page.site.name
    pagePk: int,       // title.page.pk
    depth: int,        // title.page.depth
    language: string,  // title.language
    title: string)     // title.title

  /** One site's `OrderedDict`: page keys in insertion order, and page -> (language -> title). */
  datatype PageGroup = PageGroup(keys: seq<int>, titles: map<int, map<string, TitleRow>>)

  /** The `pages` defaultdict and the `sites` dict once every title has been read. */
  datatype Grouping = Grouping(pages: map<int, PageGroup>, sites: map<int, string>)

  const EmptyGroup: PageGroup := PageGroup([], map[])

  /** A `mark_safe` string: HTML that is not to be escaped again. */
  datatype SafeHtml = SafeHtml(html: string)

  type SiteChoice = (int, string)
  type PageRow = (int, SafeHtml)

  /** An entry of `page_choices`: the leading `('', '----')` or one site's pages. */
  datatype PageChoice = NoChoice(value: string, caption: string) | SiteGroup(siteName: string, rows: seq<PageRow>)

  const Blank: PageChoice := NoChoice("", "----")

  /**
   * What the builder gets from outside: the fallback lookup (`None` when it raises
   * `LanguageError`), the codes of `settings.LANGUAGES` and the HTML escaping function.
   */
  datatype Environment = Environment(
    fallbackLanguages: string -> Option<seq<string>>,
    configuredLanguages: seq<string>,
    escape: string -> string)

  // ---------------------------------------------------------------------------
  // Grouping

  /** One turn of the grouping loop: file `t` under its site, page and language. */
  function AddTitle(g: Grouping, t: TitleRow): Grouping {
    var group := if t.sitePk in g.pages then g.pages[t.sitePk] else EmptyGroup;
    var page := if t.pagePk in group.titles then group.titles[t.pagePk] else map[];
    var keys := if t.pagePk in group.titles then group.keys else group.keys + [t.pagePk];
    Grouping(g.pages[t.sitePk := PageGroup(keys, group.titles[t.pagePk := page[t.language := t]])],
             g.sites[t.sitePk := t.siteName])
  }

  /** The grouping loop over the whole title sequence. */
  function Group(ts: seq<TitleRow>): Grouping {
    if ts == [] then Grouping(map[], map[])
    else AddTitle(Group(ts[..|ts| - 1]), ts[|ts| - 1])
  }

  predicate OnPage(t: TitleRow, site: int, page: int) {
    t.sitePk == site && t.pagePk == page
  }

  predicate InSlot(t: TitleRow, site: int, page: int, lang: string) {
    t.sitePk == site && t.pagePk == page && t.language == lang
  }

  /** No title after index `k` belongs to `site`. */
  predicate NoLaterOfSite(ts: seq<TitleRow>, k: int, site: int) {
    forall k' :: 0 <= k' < |ts| && k < k' ==> ts[k'].sitePk != site
  }

  /** No title after index `k` fills the same site, page and language. */
  predicate NoLaterInSlot(ts: seq<TitleRow>, k: int, site: int, page: int, lang: string) {
    forall k' :: 0 <= k' < |ts| && k < k' ==> !InSlot(ts[k'], site, page, lang)
  }

  /** The index of the first title of `page` on `site`, or `|ts|` if it has none. */
  function FirstSeen(ts: seq<TitleRow>, site: int, page: int): (k: nat)
    ensures k <= |ts|
    ensures k < |ts| ==> OnPage(ts[k], site, page)
    ensures forall j :: 0 <= j < k ==> !OnPage(ts[j], site, page)
  {
    if ts == [] then 0
    else if OnPage(ts[0], site, page) then 0
    else 1 + FirstSeen(ts[1..], site, page)
  }

  /** Every site has a group, and every group is keyed by its page keys in order. */
  ghost predicate WellFormed(g: Grouping) {
    && g.pages.Keys == g.sites.Keys
    && forall s :: s in g.pages ==>
         && NoDup(g.pages[s].keys)
         && (forall p :: p in g.pages[s].keys <==> p in g.pages[s].titles)
         && (forall p, l :: p in g.pages[s].titles && l in g.pages[s].titles[p] ==>
               g.pages[s].titles[p][l].pagePk == p)
  }

  /** Some title of `page` on `site` was read. */
  predicate Seen(ts: seq<TitleRow>, site: int, page: int) {
    exists k :: 0 <= k < |ts| && OnPage(ts[k], site, page)
  }

  lemma SeenFirst(ts: seq<TitleRow>, site: int, page: int)
    ensures Seen(ts, site, page) <==> FirstSeen(ts, site, page) < |ts|
  {
    if Seen(ts, site, page) {
      var k :| 0 <= k < |ts| && OnPage(ts[k], site, page);
      assert FirstSeen(ts, site, page) <= k;
    }
  }

  /** Reading one more title `t` adds its page to what was seen, and leaves first indices alone. */
  lemma SeenExtend(ts: seq<TitleRow>, site: int, page: int)
    requires ts != []
    ensures var init := ts[..|ts| - 1];
      && (Seen(ts, site, page) <==> Seen(init, site, page) || OnPage(ts[|ts| - 1], site, page))
      && (Seen(init, site, page) ==> FirstSeen(ts, site, page) == FirstSeen(init, site, page))
      && (!Seen(init, site, page) && OnPage(ts[|ts| - 1], site, page) ==> FirstSeen(ts, site, page) == |init|)
  {
    var init := ts[..|ts| - 1];
    if Seen(init, site, page) {
      var k :| 0 <= k < |init| && OnPage(init[k], site, page);
      assert ts[k] == init[k];
    }
    if Seen(ts, site, page) && !OnPage(ts[|ts| - 1], site, page) {
      var k :| 0 <= k < |ts| && OnPage(ts[k], site, page);
      assert k < |init| && init[k] == ts[k];
    }
    SeenFirst(init, site, page);
    SeenFirst(ts, site, page);
    var f := FirstSeen(init, site, page);
    var f' := FirstSeen(ts, site, page);
    assert forall j :: 0 <= j < |init| ==> init[j] == ts[j];
    if f < |init| {
      assert OnPage(ts[f], site, page);
      assert f' == f;
    }
  }

  /** `sites` and `pages` have the same keys: exactly the sites of the titles. */
  lemma {:induction false} GroupSiteKeys(ts: seq<TitleRow>)
    ensures Group(ts).pages.Keys == Group(ts).sites.Keys
    ensures forall s :: s in Group(ts).sites <==> exists k :: 0 <= k < |ts| && ts[k].sitePk == s
  {
    if ts != [] {
      var init, t := ts[..|ts| - 1], ts[|ts| - 1];
      GroupSiteKeys(init);
      var g0 := Group(init);
      assert Group(ts).sites == g0.sites[t.sitePk := t.siteName];
      forall s ensures s in Group(ts).sites <==> exists k :: 0 <= k < |ts| && ts[k].sitePk == s {
        if s in g0.sites {
          var k :| 0 <= k < |init| && init[k].sitePk == s;
          assert ts[k] == init[k];
        }
        if s != t.sitePk && exists k :: 0 <= k < |ts| && ts[k].sitePk == s {
          var k :| 0 <= k < |ts| && ts[k].sitePk == s;
          assert k < |init| && init[k] == ts[k];
        }
      }
    }
  }

  /** A site's name is the one its last title carries. */
  lemma {:induction false} GroupSiteNames(ts: seq<TitleRow>, s: int)
    requires s in Group(ts).sites
    ensures exists k :: 0 <= k < |ts| && ts[k].sitePk == s && ts[k].siteName == Group(ts).sites[s] && NoLaterOfSite(ts, k, s)
  {
    var init, t := ts[..|ts| - 1], ts[|ts| - 1];
    var g0 := Group(init);
    assert Group(ts).sites == g0.sites[t.sitePk := t.siteName];
    if s == t.sitePk {
      assert ts[|ts| - 1].sitePk == s && ts[|ts| - 1].siteName == Group(ts).sites[s] && NoLaterOfSite(ts, |ts| - 1, s);
    } else {
      GroupSiteNames(init, s);
      var k :| 0 <= k < |init| && init[k].sitePk == s && init[k].siteName == g0.sites[s] && NoLaterOfSite(init, k, s);
      assert ts[k] == init[k];
      forall k' | 0 <= k' < |ts| && k < k' ensures ts[k'].sitePk != s {
        if k' < |init| {
          assert ts[k'] == init[k'];
        }
      }
    }
  }

  /**
   * Within a site, the page keys are distinct and are exactly the pages that have a
   * title on that site.
   */
  lemma {:induction false} GroupPageKeys(ts: seq<TitleRow>, s: int)
    requires s in Group(ts).pages
    ensures var pg := Group(ts).pages[s];
      && NoDup(pg.keys)
      && (forall p :: p in pg.keys <==> p in pg.titles)
      && (forall p :: p in pg.titles <==> Seen(ts, s, p))
  {
    var init, t := ts[..|ts| - 1], ts[|ts| - 1];
    var g0 := Group(init);
    var pg := Group(ts).pages[s];
    forall p ensures Seen(ts, s, p) <==> Seen(init, s, p) || OnPage(t, s, p) {
      SeenExtend(ts, s, p);
    }
    if s != t.sitePk {
      GroupPageKeys(init, s);
      assert pg == g0.pages[s];
    } else if s !in g0.pages {
      GroupSiteKeys(init);
      assert forall k :: 0 <= k < |init| ==> init[k].sitePk != s;
      assert pg.keys == [t.pagePk];
    } else {
      GroupPageKeys(init, s);
    }
  }

  /**
   * Within a site, the page keys are in the order of each page's first title: a later
   * title of a page that is already there does not move it.
   */
  lemma {:induction false} GroupPageOrder(ts: seq<TitleRow>, s: int)
    requires s in Group(ts).pages
    ensures var pg := Group(ts).pages[s];
      forall a, b :: 0 <= a < b < |pg.keys| ==> FirstSeen(ts, s, pg.keys[a]) < FirstSeen(ts, s, pg.keys[b])
  {
    var init, t := ts[..|ts| - 1], ts[|ts| - 1];
    var g0 := Group(init);
    var pg := Group(ts).pages[s];
    if s == t.sitePk && s !in g0.pages {
      assert |pg.keys| == 1;
    } else {
      GroupPageKeys(init, s);
      GroupPageOrder(init, s);
      var before := g0.pages[s];
      forall a, b | 0 <= a < b < |pg.keys|
        ensures FirstSeen(ts, s, pg.keys[a]) < FirstSeen(ts, s, pg.keys[b])
      {
        assert pg.keys[a] == before.keys[a];
        SeenExtend(ts, s, pg.keys[a]);
        SeenFirst(init, s, pg.keys[a]);
        SeenExtend(ts, s, pg.keys[b]);
        if b < |before.keys| {
          assert pg.keys[b] == before.keys[b];
        }
      }
    }
  }

  /** Some title of `page` on `site` in language `lang` was read. */
  predicate Filled(ts: seq<TitleRow>, site: int, page: int, lang: string) {
    exists k :: 0 <= k < |ts| && InSlot(ts[k], site, page, lang)
  }

  /** The language map of page `p` on site `s` after reading one more title `t`. */
  lemma AddTitlePage(g: Grouping, t: TitleRow, s: int, p: int)
    requires s in AddTitle(g, t).pages && p in AddTitle(g, t).pages[s].titles
    ensures var before := if s in g.pages && p in g.pages[s].titles then g.pages[s].titles[p] else map[];
      AddTitle(g, t).pages[s].titles[p] == if OnPage(t, s, p) then before[t.language := t] else before
    ensures !OnPage(t, s, p) ==> s in g.pages && p in g.pages[s].titles
  {
  }

  lemma FilledExtend(ts: seq<TitleRow>, s: int, p: int, lang: string)
    requires ts != []
    ensures Filled(ts, s, p, lang) <==> Filled(ts[..|ts| - 1], s, p, lang) || InSlot(ts[|ts| - 1], s, p, lang)
  {
    var init := ts[..|ts| - 1];
    if Filled(init, s, p, lang) {
      var k :| 0 <= k < |init| && InSlot(init[k], s, p, lang);
      assert ts[k] == init[k];
    }
    if Filled(ts, s, p, lang) && !InSlot(ts[|ts| - 1], s, p, lang) {
      var k :| 0 <= k < |ts| && InSlot(ts[k], s, p, lang);
      assert k < |init| && init[k] == ts[k];
    }
  }

  /** No title of page `p` on site `s` was read before `p` entered the group. */
  lemma NotFilledBeforeEntry(ts: seq<TitleRow>, s: int, p: int, lang: string)
    requires !(s in Group(ts).pages && p in Group(ts).pages[s].titles)
    ensures !Filled(ts, s, p, lang)
  {
    if s in Group(ts).pages {
      GroupPageKeys(ts, s);
      assert !Seen(ts, s, p);
    } else {
      GroupSiteKeys(ts);
    }
    assert forall k :: 0 <= k < |ts| ==> !OnPage(ts[k], s, p);
  }

  /** A page has a title for `lang` exactly when some title of that site, page and language was read. */
  lemma {:induction false} GroupTitleSlots(ts: seq<TitleRow>, s: int, p: int, lang: string)
    requires s in Group(ts).pages && p in Group(ts).pages[s].titles
    ensures lang in Group(ts).pages[s].titles[p] <==> Filled(ts, s, p, lang)
  {
    var init, t := ts[..|ts| - 1], ts[|ts| - 1];
    FilledExtend(ts, s, p, lang);
    AddTitlePage(Group(init), t, s, p);
    if s in Group(init).pages && p in Group(init).pages[s].titles {
      GroupTitleSlots(init, s, p, lang);
    } else {
      NotFilledBeforeEntry(init, s, p, lang);
    }
  }

  /** The title kept for a page and language is the last one read for them. */
  lemma {:induction false} GroupTitleLast(ts: seq<TitleRow>, s: int, p: int, lang: string)
    requires s in Group(ts).pages && p in Group(ts).pages[s].titles
    requires lang in Group(ts).pages[s].titles[p]
    ensures var title := Group(ts).pages[s].titles[p][lang];
      exists k :: 0 <= k < |ts| && ts[k] == title && InSlot(ts[k], s, p, lang) && NoLaterInSlot(ts, k, s, p, lang)
  {
    var init, t := ts[..|ts| - 1], ts[|ts| - 1];
    var page := Group(ts).pages[s].titles[p];
    AddTitlePage(Group(init), t, s, p);
    if InSlot(t, s, p, lang) {
      assert ts[|ts| - 1] == page[lang] && NoLaterInSlot(ts, |ts| - 1, s, p, lang);
    } else {
      assert s in Group(init).pages && p in Group(init).pages[s].titles && lang in Group(init).pages[s].titles[p];
      GroupTitleLast(init, s, p, lang);
      var k :| 0 <= k < |init| && init[k] == Group(init).pages[s].titles[p][lang] && InSlot(init[k], s, p, lang)
        && NoLaterInSlot(init, k, s, p, lang);
      assert ts[k] == init[k];
      forall k' | 0 <= k' < |ts| && k < k' ensures !InSlot(ts[k'], s, p, lang) {
        if k' < |init| {
          assert ts[k'] == init[k'];
        }
      }
    }
  }

  /** The grouping of any title sequence is well formed. */
  lemma GroupWellFormed(ts: seq<TitleRow>)
    ensures WellFormed(Group(ts))
  {
    var g := Group(ts);
    GroupSiteKeys(ts);
    forall s | s in g.pages
      ensures NoDup(g.pages[s].keys)
      ensures forall p :: p in g.pages[s].keys <==> p in g.pages[s].titles
      ensures forall p, l :: p in g.pages[s].titles && l in g.pages[s].titles[p] ==>
                g.pages[s].titles[p][l].pagePk == p
    {
      GroupPageKeys(ts, s);
      forall p, l | p in g.pages[s].titles && l in g.pages[s].titles[p]
        ensures g.pages[s].titles[p][l].pagePk == p
      {
        GroupTitleLast(ts, s, p, l);
      }
    }
  }

  // ---------------------------------------------------------------------------
  // Title selection and labels

  /** The title of the first language of `order` that the page has one for. */
  function SelectTitle(titles: map<string, TitleRow>, order: seq<string>): Option<TitleRow> {
    if order == [] then None
    else if order[0] in titles then Some(titles[order[0]])
    else SelectTitle(titles, order[1..])
  }

  /**
   * Nothing is selected exactly when no language of `order` has a title; otherwise the
   * title of the first language that has one.
   */
  lemma {:induction false} SelectTitleSpec(titles: map<string, TitleRow>, order: seq<string>)
    ensures SelectTitle(titles, order).None? <==> forall i :: 0 <= i < |order| ==> order[i] !in titles
    ensures SelectTitle(titles, order).Some? ==>
              exists i :: 0 <= i < |order| && order[i] in titles && SelectTitle(titles, order).value == titles[order[i]]
                          && forall j :: 0 <= j < i ==> order[j] !in titles
  {
    if order != [] && order[0] !in titles {
      SelectTitleSpec(titles, order[1..]);
      assert forall i :: 0 <= i < |order[1..]| ==> order[1..][i] == order[i + 1];
      if SelectTitle(titles, order).Some? {
        var i :| 0 <= i < |order[1..]| && order[1..][i] in titles && SelectTitle(titles, order).value == titles[order[1..][i]]
                   && forall j :: 0 <= j < i ==> order[1..][j] !in titles;
        assert order[i + 1] in titles && forall j :: 0 <= j < i + 1 ==> order[j] !in titles;
      }
    }
  }

  /** Once the first `k` languages have no title and language `k` has one, that one is chosen. */
  lemma SelectTitleFirst(titles: map<string, TitleRow>, order: seq<string>, k: nat)
    requires k <= |order|
    requires forall m :: 0 <= m < k ==> order[m] !in titles
    requires k < |order| ==> order[k] in titles
    ensures SelectTitle(titles, order) == if k < |order| then Some(titles[order[k]]) else None
  {
    var r := SelectTitle(titles, order);
    SelectTitleSpec(titles, order);
    if k < |order| {
      var i :| 0 <= i < |order| && order[i] in titles && r.value == titles[order[i]]
                 && forall j :: 0 <= j < i ==> order[j] !in titles;
      assert i == k;
    }
  }

  /**
   * A page with only fr and pt titles shows the fr title under [en, fr, pt] and the
   * pt title under [en, pt, fr]. Both orders are possible results for [en] when fr
   * and pt are configured, so which of the two is shown depends on the set's order.
   */
  lemma TieDecidesTitle(fr: TitleRow, pt: TitleRow)
    ensures SelectTitle(map["fr" := fr, "pt" := pt], ["en", "fr", "pt"]) == Some(fr)
    ensures SelectTitle(map["fr" := fr, "pt" := pt], ["en", "pt", "fr"]) == Some(pt)
  {
    var titles := map["fr" := fr, "pt" := pt];
    assert "en" != "fr" && "en" != "pt" && "fr" != "pt" by {
      assert "en"[0] != "fr"[0] && "en"[0] != "pt"[0] && "fr"[0] != "pt"[0];
    }
    assert "en" !in titles;
    SelectTitleFirst(titles, ["en", "fr", "pt"], 1);
    SelectTitleFirst(titles, ["en", "pt", "fr"], 1);
  }

  const NbspPair: string := "&nbsp;&nbsp;"

  /** `u"&nbsp;&nbsp;" * n`: `n` copies of the pair, nothing when `n <= 0`. */
  function Indent(n: int): (s: string)
    ensures |s| == if n <= 0 then 0 else 12 * n
  {
    if n <= 0 then "" else Indent(n - 1) + NbspPair
  }

  /** Character `k` of an indentation is character `k % 12` of the pair. */
  lemma {:induction false} IndentContents(n: int)
    ensures forall k :: 0 <= k < |Indent(n)| ==> Indent(n)[k] == NbspPair[k % 12]
  {
    if 0 < n {
      IndentContents(n - 1);
      var prefix := Indent(n - 1);
      assert Indent(n) == prefix + NbspPair;
      assert forall k :: |prefix| <= k < |prefix| + 12 ==> k % 12 == k - |prefix|;
    }
  }

  /** The label of a page: its depth as indentation, then the escaped title, marked safe. */
  function Label(depth: int, title: string, escape: string -> string): SafeHtml {
    SafeHtml(Indent(depth - 1) + escape(title))
  }

  /** The dropdown entry of one page, or nothing when none of its titles is in the order. */
  function PageRowOf(group: PageGroup, p: int, order: seq<string>, escape: string -> string): seq<PageRow> {
    if p !in group.titles then []
    else
      match SelectTitle(group.titles[p], order)
      case None => []
      case Some(t) => [(t.pagePk, Label(t.depth, t.title, escape))]
  }

  /** The dropdown entries of the pages `keys`, in that order. */
  function PageRows(group: PageGroup, keys: seq<int>, order: seq<string>, escape: string -> string): seq<PageRow> {
    if keys == [] then []
    else PageRows(group, keys[..|keys| - 1], order, escape) + PageRowOf(group, keys[|keys| - 1], order, escape)
  }

  /** `site_page_choices` for one site. */
  function SiteRows(group: PageGroup, order: seq<string>, escape: string -> string): seq<PageRow> {
    PageRows(group, group.keys, order, escape)
  }

  /** Every title of the group is filed under its own page. */
  ghost predicate Keyed(group: PageGroup) {
    forall p, l :: p in group.titles && l in group.titles[p] ==> group.titles[p][l].pagePk == p
  }

  /** Page `p` has an entry in `rows`. */
  predicate Listed(rows: seq<PageRow>, p: int) {
    exists i :: 0 <= i < |rows| && rows[i].0 == p
  }

  lemma SelectedOnPage(group: PageGroup, p: int, order: seq<string>)
    requires Keyed(group)
    ensures p in group.titles && SelectTitle(group.titles[p], order).Some? ==>
              SelectTitle(group.titles[p], order).value.pagePk == p
  {
    if p in group.titles && SelectTitle(group.titles[p], order).Some? {
      var sel := SelectTitle(group.titles[p], order);
      SelectTitleSpec(group.titles[p], order);
      var i :| 0 <= i < |order| && order[i] in group.titles[p] && sel.value == group.titles[p][order[i]]
                 && forall j :: 0 <= j < i ==> order[j] !in group.titles[p];
    }
  }

  /** A page is listed in two row sequences joined exactly when it is listed in one of them. */
  lemma ListedAppend(before: seq<PageRow>, extra: seq<PageRow>, q: int)
    ensures Listed(before + extra, q) <==> Listed(before, q) || Listed(extra, q)
  {
    var r := before + extra;
    if Listed(before, q) {
      var i :| 0 <= i < |before| && before[i].0 == q;
      assert r[i].0 == q;
    }
    if Listed(extra, q) {
      var i :| 0 <= i < |extra| && extra[i].0 == q;
      assert r[|before| + i].0 == q;
    }
    if Listed(r, q) {
      var i :| 0 <= i < |r| && r[i].0 == q;
      if i < |before| {
        assert before[i].0 == q;
      } else {
        assert extra[i - |before|].0 == q;
      }
    }
  }

  /** The entry of page `p` lists `p` alone, and only when one of its titles is in the order. */
  lemma ListedRowOf(group: PageGroup, p: int, order: seq<string>, escape: string -> string, q: int)
    requires Keyed(group)
    ensures Listed(PageRowOf(group, p, order, escape), q) <==>
              q == p && p in group.titles && SelectTitle(group.titles[p], order).Some?
  {
    SelectedOnPage(group, p, order);
    var extra := PageRowOf(group, p, order, escape);
    if p in group.titles && SelectTitle(group.titles[p], order).Some? {
      assert |extra| == 1 && extra[0].0 == p;
    } else {
      assert extra == [];
    }
  }

  /** A page is listed exactly when one of its titles is in the order. */
  lemma {:induction false} PageRowsListed(group: PageGroup, keys: seq<int>, order: seq<string>, escape: string -> string)
    requires forall p :: p in keys ==> p in group.titles
    requires Keyed(group)
    ensures var r := PageRows(group, keys, order, escape);
      forall p :: p in keys ==> (Listed(r, p) <==> SelectTitle(group.titles[p], order).Some?)
  {
    if keys != [] {
      var init, p := keys[..|keys| - 1], keys[|keys| - 1];
      assert forall q :: q in init ==> q in keys;
      PageRowsListed(group, init, order, escape);
      PageRowsEntries(group, init, order, escape);
      SelectedOnPage(group, p, order);
      var before := PageRows(group, init, order, escape);
      var extra := PageRowOf(group, p, order, escape);
      forall q | q in keys
        ensures Listed(before + extra, q) <==> SelectTitle(group.titles[q], order).Some?
      {
        ListedAppend(before, extra, q);
        ListedRowOf(group, p, order, escape, q);
        if q !in init {
          assert forall i :: 0 <= i < |before| ==> before[i].0 in init;
          assert !Listed(before, q);
        }
      }
    }
  }

  /** `row` is the entry of one of `keys`, labelled with the title chosen for that page. */
  predicate ChosenEntry(group: PageGroup, keys: seq<int>, order: seq<string>, escape: string -> string, row: PageRow) {
    && row.0 in keys
    && row.0 in group.titles
    && SelectTitle(group.titles[row.0], order).Some?
    && var t := SelectTitle(group.titles[row.0], order).value;
       row.1 == Label(t.depth, t.title, escape)
  }

  /** Every entry is one of the pages, with the label of the title chosen for it. */
  lemma {:induction false} PageRowsEntries(group: PageGroup, keys: seq<int>, order: seq<string>, escape: string -> string)
    requires Keyed(group)
    ensures forall i :: 0 <= i < |PageRows(group, keys, order, escape)| ==>
              ChosenEntry(group, keys, order, escape, PageRows(group, keys, order, escape)[i])
  {
    if keys != [] {
      var init, p := keys[..|keys| - 1], keys[|keys| - 1];
      assert forall q :: q in init ==> q in keys;
      PageRowsEntries(group, init, order, escape);
      SelectedOnPage(group, p, order);
      var before := PageRows(group, init, order, escape);
      var r := PageRows(group, keys, order, escape);
      assert r == before + PageRowOf(group, p, order, escape);
      forall i | 0 <= i < |r| ensures ChosenEntry(group, keys, order, escape, r[i]) {
        if i < |before| {
          assert r[i] == before[i] && ChosenEntry(group, init, order, escape, before[i]);
        } else {
          assert r[i] == PageRowOf(group, p, order, escape)[0];
        }
      }
    }
  }

  /** `x` occurs in `keys` before `y`. */
  predicate KeyBefore(keys: seq<int>, x: int, y: int) {
    exists a, b :: 0 <= a < b < |keys| && keys[a] == x && keys[b] == y
  }

  /** The entries keep the order of the page keys. */
  lemma {:induction false} PageRowsOrder(group: PageGroup, keys: seq<int>, order: seq<string>, escape: string -> string)
    requires Keyed(group)
    ensures forall i, j :: 0 <= i < j < |PageRows(group, keys, order, escape)| ==>
              KeyBefore(keys, PageRows(group, keys, order, escape)[i].0, PageRows(group, keys, order, escape)[j].0)
  {
    if keys != [] {
      var init, p := keys[..|keys| - 1], keys[|keys| - 1];
      assert forall q :: q in init ==> q in keys;
      PageRowsOrder(group, init, order, escape);
      PageRowsEntries(group, init, order, escape);
      var before := PageRows(group, init, order, escape);
      var r := PageRows(group, keys, order, escape);
      assert r == before + PageRowOf(group, p, order, escape);
      assert |PageRowOf(group, p, order, escape)| <= 1;
      forall i, j | 0 <= i < j < |r| ensures KeyBefore(keys, r[i].0, r[j].0) {
        assert i < |before| && r[i] == before[i];
        assert ChosenEntry(group, init, order, escape, before[i]);
        if j < |before| {
          assert r[j] == before[j];
          assert KeyBefore(init, before[i].0, before[j].0);
          var a, b :| 0 <= a < b < |init| && init[a] == before[i].0 && init[b] == before[j].0;
          assert keys[a] == r[i].0 && keys[b] == r[j].0;
        } else {
          SelectedOnPage(group, p, order);
          assert r[j].0 == p;
          var a :| 0 <= a < |init| && init[a] == before[i].0;
          assert keys[a] == r[i].0 && keys[|keys| - 1] == r[j].0;
        }
      }
    }
  }

  // ---------------------------------------------------------------------------
  // The builder

  /** `[lang] + fallbacks`, with no fallbacks when looking them up failed. */
  function RequestOrder(lang: string, fallbacks: Option<seq<string>>): seq<string> {
    [lang] + (if fallbacks.Some? then fallbacks.value else [])
  }

  /** The site keys listed in `siteChoices`. */
  function SitePks(siteChoices: seq<SiteChoice>): set<int> {
    set i | 0 <= i < |siteChoices| :: siteChoices[i].0
  }

  lemma SitePksAppend(siteChoices: seq<SiteChoice>, c: SiteChoice)
    ensures SitePks(siteChoices + [c]) == SitePks(siteChoices) + {c.0}
  {
    var r := siteChoices + [c];
    assert r[|siteChoices|].0 == c.0;
    forall s | s in SitePks(siteChoices) ensures s in SitePks(r) {
      var i :| 0 <= i < |siteChoices| && siteChoices[i].0 == s;
      assert r[i].0 == s;
    }
  }

  /** `entry` is the page group of the site `site` lists, under the site's name. */
  predicate SiteEntry(g: Grouping, order: seq<string>, escape: string -> string, site: SiteChoice, entry: PageChoice) {
    && site.0 in g.sites && site.0 in g.pages
    && site.1 == g.sites[site.0]
    && entry == SiteGroup(site.1, SiteRows(g.pages[site.0], order, escape))
  }

  /**
   * What the builder returns, for the grouping `g`: one `(pk, name)` per site, every
   * site once, and `page_choices` as the blank entry followed, site by site in the same
   * order, by the site's name and page entries.
   */
  predicate ChoicesOf(g: Grouping, order: seq<string>, escape: string -> string,
                      siteChoices: seq<SiteChoice>, pageChoices: seq<PageChoice>)
  {
    && (forall i, j :: 0 <= i < j < |siteChoices| ==> siteChoices[i].0 != siteChoices[j].0)
    && g.sites.Keys == SitePks(siteChoices)
    && |pageChoices| == |siteChoices| + 1
    && pageChoices[0] == Blank
    && (forall i :: 0 <= i < |siteChoices| ==> SiteEntry(g, order, escape, siteChoices[i], pageChoices[i + 1]))
  }

  /**
   * The choices built from the title sequence `titles` for the language `lang`: those
   * for some order `get_expanded_language_order` can return for the request's order.
   * Which of two languages with the same key is tried first depends on how the set of
   * extra languages is enumerated, so it is left open.
   */
  ghost predicate ChoicesFor(titles: seq<TitleRow>, lang: string, env: Environment,
                             siteChoices: seq<SiteChoice>, pageChoices: seq<PageChoice>)
  {
    exists order :: Languages.IsExpansion(RequestOrder(lang, env.fallbackLanguages(lang)), env.configuredLanguages, order)
                    && ChoicesOf(Group(titles), order, env.escape, siteChoices, pageChoices)
  }

  /**
   * The languages tried for a page: `lang` first, then its fallbacks, or `lang` alone
   * when the fallback lookup failed, then the other configured languages.
   */
  lemma LanguageOrderSpec(lang: string, env: Environment, order: seq<string>)
    requires Languages.IsExpansion(RequestOrder(lang, env.fallbackLanguages(lang)), env.configuredLanguages, order)
    ensures var request := RequestOrder(lang, env.fallbackLanguages(lang));
      && request[0] == lang
      && (env.fallbackLanguages(lang).None? ==> request == [lang])
      && |request| <= |order|
      && order[..|request|] == request
      && forall l :: l in order <==> l in request || l in env.configuredLanguages
  {
    var request := RequestOrder(lang, env.fallbackLanguages(lang));
    assert order == order[..|request|] + order[|request|..];
    forall l ensures l in order <==> l in request || l in env.configuredLanguages {
      assert l in order <==> l in order[..|request|] || l in order[|request|..];
    }
  }

  /**
   * A site's page entries, end to end from the titles: exactly the pages with a title
   * on the site for some language of `order`, each labelled with the title of the
   * first such language, in the order of each page's first title.
   */
  lemma SiteRowsSpec(ts: seq<TitleRow>, s: int, order: seq<string>, escape: string -> string)
    requires s in Group(ts).pages
    ensures var pg := Group(ts).pages[s];
      forall p :: Listed(SiteRows(pg, order, escape), p) <==>
                    Seen(ts, s, p) && p in pg.titles && SelectTitle(pg.titles[p], order).Some?
    ensures var pg := Group(ts).pages[s];
      forall i :: 0 <= i < |SiteRows(pg, order, escape)| ==>
                    ChosenEntry(pg, pg.keys, order, escape, SiteRows(pg, order, escape)[i])
    ensures var pg := Group(ts).pages[s];
      forall i, j :: 0 <= i < j < |SiteRows(pg, order, escape)| ==>
                    FirstSeen(ts, s, SiteRows(pg, order, escape)[i].0) < FirstSeen(ts, s, SiteRows(pg, order, escape)[j].0)
  {
    var pg := Group(ts).pages[s];
    var rows := SiteRows(pg, order, escape);
    GroupWellFormed(ts);
    GroupPageKeys(ts, s);
    GroupPageOrder(ts, s);
    assert Keyed(pg);
    PageRowsListed(pg, pg.keys, order, escape);
    PageRowsEntries(pg, pg.keys, order, escape);
    PageRowsOrder(pg, pg.keys, order, escape);
    forall p | Listed(rows, p) ensures p in pg.keys {
      var i :| 0 <= i < |rows| && rows[i].0 == p;
      assert ChosenEntry(pg, pg.keys, order, escape, rows[i]);
    }
    forall i, j | 0 <= i < j < |rows| ensures FirstSeen(ts, s, rows[i].0) < FirstSeen(ts, s, rows[j].0) {
      assert KeyBefore(pg.keys, rows[i].0, rows[j].0);
      var a, b :| 0 <= a < b < |pg.keys| && pg.keys[a] == rows[i].0 && pg.keys[b] == rows[j].0;
    }
  }

  /** The grouping loop: file every title under its site, page and language, in order. */
  method CollectPages(titles: seq<TitleRow>) returns (pages: map<int, PageGroup>, sites: map<int, string>)
    ensures Grouping(pages, sites) == Group(titles)
  {
    pages, sites := map[], map[];
    var n := 0;
    while n < |titles|
      invariant n <= |titles|
      invariant Grouping(pages, sites) == Group(titles[..n])
    {
      var t := titles[n];
      var group := if t.sitePk in pages then pages[t.sitePk] else EmptyGroup;
      var page := if t.pagePk in group.titles then group.titles[t.pagePk] else map[];
      page := page[t.language := t];
      var keys := if t.pagePk in group.titles then group.keys else group.keys + [t.pagePk];
      pages := pages[t.sitePk := PageGroup(keys, group.titles[t.pagePk := page])];
      sites := sites[t.sitePk := t.siteName];
      assert titles[..n + 1][..n] == titles[..n];
      n := n + 1;
    }
    assert titles[..n] == titles;
  }

  /** The language loop: the title of the first language in `order` the page has, if any. */
  method FirstTitle(titlesByLanguage: map<string, TitleRow>, order: seq<string>) returns (title: Option<TitleRow>)
    ensures title == SelectTitle(titlesByLanguage, order)
  {
    title := None;
    var k := 0;
    while k < |order|
      invariant k <= |order|
      invariant title == None
      invariant forall m :: 0 <= m < k ==> order[m] !in titlesByLanguage
    {
      title := if order[k] in titlesByLanguage then Some(titlesByLanguage[order[k]]) else None;
      if title.Some? {
        break;
      }
      k := k + 1;
    }
    SelectTitleFirst(titlesByLanguage, order, k);
  }

  /** The page loop of one site: an entry for every page that has a title to show. */
  method SitePageChoices(group: PageGroup, order: seq<string>, escape: string -> string)
    returns (sitePageChoices: seq<PageRow>)
    requires forall i :: 0 <= i < |group.keys| ==> group.keys[i] in group.titles
    ensures sitePageChoices == SiteRows(group, order, escape)
  {
    sitePageChoices := [];
    var j := 0;
    while j < |group.keys|
      invariant j <= |group.keys|
      invariant sitePageChoices == PageRows(group, group.keys[..j], order, escape)
    {
      var title := FirstTitle(group.titles[group.keys[j]], order);
      assert group.keys[..j + 1][..j] == group.keys[..j];
      assert PageRows(group, group.keys[..j + 1], order, escape)
          == sitePageChoices + PageRowOf(group, group.keys[j], order, escape);
      if title.Some? {
        var t := title.value;
        var indent := Indent(t.depth - 1);
        var pageTitle := SafeHtml(indent + escape(t.title));
        sitePageChoices := sitePageChoices + [(t.pagePk, pageTitle)];
      }
      j := j + 1;
    }
    assert group.keys[..j] == group.keys;
  }

  /** The site loop: a site entry and a page group for every site of `g`, in the dict's order. */
  method ListSites(g: Grouping, order: seq<string>, escape: string -> string)
    returns (siteChoices: seq<SiteChoice>, pageChoices: seq<PageChoice>)
    requires g.pages.Keys == g.sites.Keys
    requires forall s, i :: s in g.pages && 0 <= i < |g.pages[s].keys| ==> g.pages[s].keys[i] in g.pages[s].titles
    ensures ChoicesOf(g, order, escape, siteChoices, pageChoices)
  {
    siteChoices := [];
    pageChoices := [Blank];
    var remaining := g.sites.Keys;
    while exists s :: s in remaining
      invariant remaining <= g.sites.Keys
      invariant forall i, j :: 0 <= i < j < |siteChoices| ==> siteChoices[i].0 != siteChoices[j].0
      invariant g.sites.Keys == remaining + SitePks(siteChoices)
      invariant forall i :: 0 <= i < |siteChoices| ==> siteChoices[i].0 !in remaining
      invariant |pageChoices| == |siteChoices| + 1 && pageChoices[0] == Blank
      invariant forall i :: 0 <= i < |siteChoices| ==> SiteEntry(g, order, escape, siteChoices[i], pageChoices[i + 1])
      decreases remaining
    {
      var sitepk :| sitepk in remaining;
      var sitename := g.sites[sitepk];
      SitePksAppend(siteChoices, (sitepk, sitename));
      siteChoices := siteChoices + [(sitepk, sitename)];
      var group := g.pages[sitepk];
      var sitePageChoices := SitePageChoices(group, order, escape);
      pageChoices := pageChoices + [SiteGroup(sitename, sitePageChoices)];
      remaining := remaining - {sitepk};
    }
  }

  /**
   * The building part of `update_site_and_page_choices(lang)`, for a language already
   * resolved. Sites come out in whatever order the `sites` dict yields them. The extra
   * languages are enumerated in configured order here, but the contract promises only
   * the choices for some possible expanded order, as a set's order is not fixed.
   */
  method BuildChoices(titles: seq<TitleRow>, lang: string, env: Environment)
    returns (siteChoices: seq<SiteChoice>, pageChoices: seq<PageChoice>)
    ensures ChoicesFor(titles, lang, env, siteChoices, pageChoices)
  {
    var pages, sites := CollectPages(titles);
    GroupWellFormed(titles);
    var g := Grouping(pages, sites);
    assert WellFormed(g);
    forall s, i | s in g.pages && 0 <= i < |g.pages[s].keys|
      ensures g.pages[s].keys[i] in g.pages[s].titles
    {
      var group := g.pages[s];
      assert forall p :: p in group.keys <==> p in group.titles;
      assert group.keys[i] in group.keys;
    }
    var fallbacks := env.fallbackLanguages(lang);
    var languageOrder := [lang] + (if fallbacks.Some? then fallbacks.value else []);
    Languages.ExpandedLanguageOrderSpec(languageOrder, env.configuredLanguages);
    languageOrder := Languages.ExpandedLanguageOrder(languageOrder, env.configuredLanguages);
    siteChoices, pageChoices := ListSites(g, languageOrder, env.escape);
    assert ChoicesOf(Group(titles), languageOrder, env.escape, siteChoices, pageChoices);
  }
}
