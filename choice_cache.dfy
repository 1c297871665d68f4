/**
 * The cached choices of the page-link dropdown (`update_site_and_page_choices`,
 * `get_site_choices` and `get_page_choices` in cms/forms/utils.py).
 *
 * Django's cache is a store of keyed values. The two lists built for a language are
 * written together, under a site-choices key and a page-choices key for that
 * language, and a read that finds its key returns what is stored without rebuilding.
 * Keys also disappear one kind at a time: the handlers wired to Page and Site saves
 * and deletes clear one kind of list, and the backend expires or evicts single keys.
 * So the two lists stored for a language need not come from the same build.
 */
module ChoiceCache {
  import opened Common
  import Choices

  /** The two keys kept per language. */
  datatype CacheKey = SiteChoicesKey(language: string) | PageChoicesKey(language: string)

  /** What is stored under a key: `site_choices` or `page_choices`. */
  datatype CacheValue =
    | SiteChoicesValue(sites: seq<Choices.SiteChoice>)
    | PageChoicesValue(pages: seq<Choices.PageChoice>)

  /** One run of the builder: the draft titles it read and the two lists it returned. */
  datatype Build = Build(titles: seq<Choices.TitleRow>, sites: seq<Choices.SiteChoice>,
                         pages: seq<Choices.PageChoice>)

  /** `lang or i18n.get_current_language()`: an absent or empty language means the current one. */
  function ResolveLanguage(lang: Option<string>, currentLanguage: string): string
  {
    match lang
    case Some(l) => if l != "" then l else currentLanguage
    case None => currentLanguage
  }

  /** `v` is the half of build `b` that a key of `k`'s kind holds. */
  predicate HalfOf(k: CacheKey, v: CacheValue, b: Build) {
    match k
    case SiteChoicesKey(_) => v == SiteChoicesValue(b.sites)
    case PageChoicesKey(_) => v == PageChoicesValue(b.pages)
  }

  /** `b` is what the builder can return for `lang` when it reads `b.titles`. */
  ghost predicate BuildFor(env: Choices.Environment, lang: string, b: Build) {
    Choices.ChoicesFor(b.titles, lang, env, b.sites, b.pages)
  }

  /** Every stored value is its kind's half of the build `builds` records for its key. */
  ghost predicate Consistent(env: Choices.Environment, entries: map<CacheKey, CacheValue>,
                             builds: map<CacheKey, Build>)
  {
    forall k :: k in entries ==> k in builds && HalfOf(k, entries[k], builds[k]) && BuildFor(env, k.language, builds[k])
  }

  /** Storing both halves of one build for a language keeps every stored value consistent. */
  lemma StoreKeepsConsistent(env: Choices.Environment, entries: map<CacheKey, CacheValue>,
                             builds: map<CacheKey, Build>, lang: string, b: Build)
    requires Consistent(env, entries, builds)
    requires BuildFor(env, lang, b)
    ensures Consistent(env, entries[SiteChoicesKey(lang) := SiteChoicesValue(b.sites)]
                                   [PageChoicesKey(lang) := PageChoicesValue(b.pages)],
                       builds[SiteChoicesKey(lang) := b][PageChoicesKey(lang) := b])
  {
  }

  /** Removing keys keeps every remaining value consistent. */
  lemma RemoveKeepsConsistent(env: Choices.Environment, entries: map<CacheKey, CacheValue>,
                              builds: map<CacheKey, Build>, kept: map<CacheKey, CacheValue>)
    requires Consistent(env, entries, builds)
    requires forall k :: k in kept ==> k in entries && kept[k] == entries[k]
    ensures Consistent(env, kept, builds)
  {
  }

  class Cache {
    /** The settings the lists are built with: fallbacks, `settings.LANGUAGES`, escaping. */
    const env: Choices.Environment
    /** The cache's contents. */
    var entries: map<CacheKey, CacheValue>
    /** For every key ever written, the build whose half was last written under it. */
    ghost var builds: map<CacheKey, Build>

    /** Every stored value is its kind's half of a build for its language. */
    ghost predicate Valid()
      reads this
    {
      Consistent(env, entries, builds)
    }

    /** An empty cache. */
    constructor(env: Choices.Environment)
      ensures this.env == env
      ensures entries == map[]
      ensures Valid()
    {
      this.env := env;
      entries := map[];
      builds := map[];
    }

    /**
     * `update_site_and_page_choices(lang)`: builds both lists from `titles` (the draft
     * titles the query yields) and stores them under the language's two keys.
     */
    method UpdateSiteAndPageChoices(lang: Option<string>, currentLanguage: string, titles: seq<Choices.TitleRow>)
      returns (siteChoices: seq<Choices.SiteChoice>, pageChoices: seq<Choices.PageChoice>)
      requires Valid()
      modifies this
      ensures Valid()
      ensures Choices.ChoicesFor(titles, ResolveLanguage(lang, currentLanguage), env, siteChoices, pageChoices)
      ensures var l := ResolveLanguage(lang, currentLanguage);
              var b := Build(titles, siteChoices, pageChoices);
        && entries == old(entries)[SiteChoicesKey(l) := SiteChoicesValue(siteChoices)]
                                  [PageChoicesKey(l) := PageChoicesValue(pageChoices)]
        && builds == old(builds)[SiteChoicesKey(l) := b][PageChoicesKey(l) := b]
    {
      var l := ResolveLanguage(lang, currentLanguage);
      siteChoices, pageChoices := Choices.BuildChoices(titles, l, env);
      var b := Build(titles, siteChoices, pageChoices);
      StoreKeepsConsistent(env, entries, builds, l, b);
      builds := builds[SiteChoicesKey(l) := b][PageChoicesKey(l) := b];
      entries := entries[SiteChoicesKey(l) := SiteChoicesValue(siteChoices)]
                        [PageChoicesKey(l) := PageChoicesValue(pageChoices)];
    }

    /**
     * `get_site_choices(lang)`: the stored site list when there is one; otherwise both
     * lists are rebuilt and stored and the new site list is returned.
     */
    method GetSiteChoices(lang: Option<string>, currentLanguage: string, titles: seq<Choices.TitleRow>)
      returns (siteChoices: seq<Choices.SiteChoice>)
      requires Valid()
      modifies this
      ensures Valid()
      ensures var l := ResolveLanguage(lang, currentLanguage);
        SiteChoicesKey(l) in old(entries) ==>
          && entries == old(entries) && builds == old(builds)
          && siteChoices == old(entries)[SiteChoicesKey(l)].sites
      ensures var l := ResolveLanguage(lang, currentLanguage);
        SiteChoicesKey(l) !in old(entries) ==>
          && PageChoicesKey(l) in entries && entries[PageChoicesKey(l)].PageChoicesValue?
          && var b := Build(titles, siteChoices, entries[PageChoicesKey(l)].pages);
          && entries == old(entries)[SiteChoicesKey(l) := SiteChoicesValue(siteChoices)]
                                    [PageChoicesKey(l) := PageChoicesValue(b.pages)]
          && builds == old(builds)[SiteChoicesKey(l) := b][PageChoicesKey(l) := b]
          && Choices.ChoicesFor(titles, l, env, siteChoices, b.pages)
      ensures var l := ResolveLanguage(lang, currentLanguage);
        && SiteChoicesKey(l) in entries && entries[SiteChoicesKey(l)] == SiteChoicesValue(siteChoices)
        && SiteChoicesKey(l) in builds && builds[SiteChoicesKey(l)].sites == siteChoices
        && BuildFor(env, l, builds[SiteChoicesKey(l)])
    {
      var l := ResolveLanguage(lang, currentLanguage);
      if SiteChoicesKey(l) in entries {
        siteChoices := entries[SiteChoicesKey(l)].sites;
      } else {
        var pageChoices;
        siteChoices, pageChoices := UpdateSiteAndPageChoices(Some(l), l, titles);
      }
    }

    /**
     * `get_page_choices(lang)`: the stored page list when there is one; otherwise both
     * lists are rebuilt and stored and the new page list is returned.
     */
    method GetPageChoices(lang: Option<string>, currentLanguage: string, titles: seq<Choices.TitleRow>)
      returns (pageChoices: seq<Choices.PageChoice>)
      requires Valid()
      modifies this
      ensures Valid()
      ensures var l := ResolveLanguage(lang, currentLanguage);
        PageChoicesKey(l) in old(entries) ==>
          && entries == old(entries) && builds == old(builds)
          && pageChoices == old(entries)[PageChoicesKey(l)].pages
      ensures var l := ResolveLanguage(lang, currentLanguage);
        PageChoicesKey(l) !in old(entries) ==>
          && SiteChoicesKey(l) in entries && entries[SiteChoicesKey(l)].SiteChoicesValue?
          && var b := Build(titles, entries[SiteChoicesKey(l)].sites, pageChoices);
          && entries == old(entries)[SiteChoicesKey(l) := SiteChoicesValue(b.sites)]
                                    [PageChoicesKey(l) := PageChoicesValue(pageChoices)]
          && builds == old(builds)[SiteChoicesKey(l) := b][PageChoicesKey(l) := b]
          && Choices.ChoicesFor(titles, l, env, b.sites, pageChoices)
      ensures var l := ResolveLanguage(lang, currentLanguage);
        && PageChoicesKey(l) in entries && entries[PageChoicesKey(l)] == PageChoicesValue(pageChoices)
        && PageChoicesKey(l) in builds && builds[PageChoicesKey(l)].pages == pageChoices
        && BuildFor(env, l, builds[PageChoicesKey(l)])
    {
      var l := ResolveLanguage(lang, currentLanguage);
      if PageChoicesKey(l) in entries {
        pageChoices := entries[PageChoicesKey(l)].pages;
      } else {
        var siteChoices;
        siteChoices, pageChoices := UpdateSiteAndPageChoices(Some(l), l, titles);
      }
    }

    /**
     * `clean_site_choices_cache`, run on every Site save and delete: the site list of
     * every language is dropped, and the page lists stay.
     */
    method ClearSiteChoices()
      requires Valid()
      modifies this
      ensures Valid()
      ensures entries == map k | k in old(entries) && k.PageChoicesKey? :: old(entries)[k]
      ensures builds == old(builds)
    {
      var kept := map k | k in entries && k.PageChoicesKey? :: entries[k];
      RemoveKeepsConsistent(env, entries, builds, kept);
      entries := kept;
    }

    /**
     * `clean_page_choices_cache`, run on every Page save and delete: the page list of
     * every language is dropped, and the site lists stay.
     */
    method ClearPageChoices()
      requires Valid()
      modifies this
      ensures Valid()
      ensures entries == map k | k in old(entries) && k.SiteChoicesKey? :: old(entries)[k]
      ensures builds == old(builds)
    {
      var kept := map k | k in entries && k.SiteChoicesKey? :: entries[k];
      RemoveKeepsConsistent(env, entries, builds, kept);
      entries := kept;
    }

    /** The backend drops one key: its 86400-second expiry ran out, or it was evicted. */
    method Evict(key: CacheKey)
      requires Valid()
      modifies this
      ensures Valid()
      ensures entries == old(entries) - {key}
      ensures builds == old(builds)
    {
      RemoveKeepsConsistent(env, entries, builds, entries - {key});
      entries := entries - {key};
    }

    /**
     * A form that reads the site list and then the page list for the same language:
     * each list is its half of some build for that language, and the two halves are
     * of one build when the site read misses, or when the two stored halves already
     * were. After a page-list clear alone, a site read can hit while the page read
     * rebuilds, and the two lists then come from two builds.
     */
    method SiteAndPageChoices(lang: Option<string>, currentLanguage: string, titles: seq<Choices.TitleRow>)
      returns (siteChoices: seq<Choices.SiteChoice>, pageChoices: seq<Choices.PageChoice>,
               ghost siteBuild: Build, ghost pageBuild: Build)
      requires Valid()
      modifies this
      ensures Valid()
      ensures var l := ResolveLanguage(lang, currentLanguage);
        && BuildFor(env, l, siteBuild) && siteBuild.sites == siteChoices
        && BuildFor(env, l, pageBuild) && pageBuild.pages == pageChoices
      ensures var l := ResolveLanguage(lang, currentLanguage);
        (|| SiteChoicesKey(l) !in old(entries)
         || (PageChoicesKey(l) in old(entries) && old(builds)[SiteChoicesKey(l)] == old(builds)[PageChoicesKey(l)]))
        ==> siteBuild == pageBuild && Choices.ChoicesFor(siteBuild.titles, l, env, siteChoices, pageChoices)
    {
      var l := ResolveLanguage(lang, currentLanguage);
      siteChoices := GetSiteChoices(lang, currentLanguage, titles);
      siteBuild := builds[SiteChoicesKey(l)];
      pageChoices := GetPageChoices(lang, currentLanguage, titles);
      pageBuild := builds[PageChoicesKey(l)];
    }
  }
}
