# Page-link choices and alias recursion, modelled in Dafny

This project models two pieces of a Django CMS:

- **The page-link dropdown** (`cms/forms/utils.py`). The request's language order
  `[lang] + fallbacks` is expanded with every other configured language. The extras are
  stable-sorted by where their base language (the text before the first `-`) first
  occurs in the request's order. The draft titles come in page-path order. The builder
  groups them site → page → language. For each page it picks the title of the first
  language in the expanded order that has one, and it labels that page with
  `"&nbsp;&nbsp;"` repeated `depth - 1` times and then the escaped title. The output is
  two lists: `site_choices`, and `page_choices`, which starts with a blank `('', '----')`
  entry. Both lists are written to a cache under two per-language keys. The two getters
  read that cache and rebuild on a miss.
- **The alias recursion check** (`cms/models/aliaspluginmodel.py`). An alias plugin
  shows either one plugin or a whole placeholder. `is_recursive` works out the
  placeholder it shows. It then asks whether an `AliasPlugin` in that placeholder points
  straight back: at this alias itself, or at the placeholder this alias sits in.

Files:

- `common.dfy`: `Option` and `NoDup`.
- `languages.dfy`: `get_expanded_language_order` and the properties of its key and sort.
- `choices.dfy`: the grouping, title selection, labels and output shape of
  `update_site_and_page_choices`. Its four loops are methods. The grouping loop, the
  language loop and the page loop are proved equal to the functions `Group`,
  `SelectTitle` and `SiteRows`. The site loop (`ListSites`) is proved to establish
  `ChoicesOf`.
- `choice_cache.dfy`: the cache as a class with a key → value map. Its methods are
  `update_site_and_page_choices`, `get_site_choices` and `get_page_choices`, the two
  cache-clearing handlers, and the expiry or eviction of a single key.
  `Cache.SiteAndPageChoices` models no single source function: it is a caller that
  reads the site list and then the page list for one language.
- `alias.dfy`: `is_recursive` as a function over a record store.

Where each source function lives:

- `get_base_language`: `Languages.BaseLanguage`.
- `language_order_bases`: `Languages.Bases`.
- `position_of_base_in_language_order`: `Languages.BaseKey`, and the loop
  `Languages.PositionOfBaseInLanguageOrder`.
- `get_expanded_language_order`: `Languages.ExpandedLanguageOrder`. Every result the
  program can return, whatever the set order, is described by `Languages.IsExpansion`.
- The grouping loop of `update_site_and_page_choices`: `Choices.AddTitle` / `Choices.Group`
  and the method `Choices.CollectPages`.
- Its title selection: `Choices.SelectTitle` and `Choices.FirstTitle`.
- Its labels: `Choices.Indent` and `Choices.Label`.
- `[lang] + fallbacks`: `Choices.RequestOrder`.
- One page's entry: `Choices.PageRowOf`. A site's entries: `Choices.SiteRows` and
  `Choices.SitePageChoices`.
- The site loop: `Choices.ListSites`.
- The builder as a whole: `Choices.BuildChoices`, specified by `Choices.ChoicesFor`.
- `lang or i18n.get_current_language()`: `ChoiceCache.ResolveLanguage`.
- The cache functions: the methods of `ChoiceCache.Cache`.
- `is_recursive`: `Alias.IsRecursive`, with its target placeholder as
  `Alias.TargetPlaceholder` and its filters as `Alias.PointsBack`.

The database, the i18n helpers, `settings.LANGUAGES` and `escape` are parameters.
`Choices.Environment` holds the fallback lookup, the configured language codes and the
escaping function. The cache methods take the current language and the draft titles
that the query would return.

Three points about the code itself:

- `if title:` on a `Title` instance is true whenever a title exists for that language,
  so the model selects by presence, not by a non-empty title string.
- The code does not reorder a target site's languages. It only appends the configured
  languages that are missing from the request's order.
- The two lists stored for a language need not come from one build. Each handler
  wired at cms/forms/utils.py:116-119 clears one kind of list, and the backend expires
  keys one at a time. After a page-list clear, a site read can hit while the next page
  read rebuilds.

## Model

| member | source | states |
|---|---|---|
| Languages.BaseLanguageSpec | cms/forms/utils.py:32-33 | `BaseLanguage` (`get_base_language`): the base is a prefix of the code with no `-` in it, and it is either the whole code or stops at the first `-` |
| Languages.BaseKey | cms/forms/utils.py:37-42 | the key is at most the length of the order |
| Languages.BaseKeySpec | cms/forms/utils.py:37-42 | `BaseKey` (the sort key): below the length, the key points at an entry with the same base; no earlier entry has that base |
| Languages.PositionOfBaseInLanguageOrder | cms/forms/utils.py:35-42 | the linear search returns the first index whose base matches, or the length of the order when none does, and that index equals `BaseKey` |
| Languages.BaseKeyBounds | cms/forms/utils.py:37-42 | `0 <= key <= len(order)`, and the key is `len(order)` exactly when no entry has the same base |
| Languages.Extras | cms/forms/utils.py:29-30 | the set difference has no duplicates and holds exactly the configured languages not in the order |
| Languages.InsertByKey | cms/forms/utils.py:44 | one insertion step adds exactly the new element (as a multiset) |
| Languages.InsertKeepsLowerBound | cms/forms/utils.py:44 | inserting keeps every key above a bound both inputs respect |
| Languages.InsertKeepsSorted | cms/forms/utils.py:44 | inserting into a key-sorted sequence keeps it key-sorted |
| Languages.InsertKeepsNoDup | cms/forms/utils.py:44 | inserting a new element keeps the sequence free of duplicates |
| Languages.SortByKey | cms/forms/utils.py:44 | `sorted` returns a permutation of its input |
| Languages.SortByKeySorted | cms/forms/utils.py:44 | the output of `sorted` has non-decreasing keys |
| Languages.SortByKeyNoDup | cms/forms/utils.py:44 | sorting a duplicate-free sequence leaves it duplicate-free |
| Languages.ExpandedLanguageOrderSpec | cms/forms/utils.py:28-44 | `ExpandedLanguageOrder` (`get_expanded_language_order`) is one of the possible results `IsExpansion` describes: the request's order as an unchanged prefix, then every configured language outside it exactly once, with non-decreasing keys |
| Languages.TiedExtrasEitherOrder | cms/forms/utils.py:29-44 | languages with equal keys may come in either order: against [en], both [en, fr, pt] and [en, pt, fr] are possible results over the configured [fr, pt] |
| Languages.SmallerKeyFirst | cms/forms/utils.py:44 | in the tail of any possible result, a language with a smaller key comes before one with a larger key |
| Languages.PlainBase | cms/forms/utils.py:32-33 | a two-letter code without `-` is its own base |
| Languages.RegionalBase | cms/forms/utils.py:32-33 | a code `xx-yy` has the base `xx` |
| Languages.ExampleBases | cms/forms/utils.py:23-33 | the bases of en-us, en-gb, es-mx, es, fr and pt |
| Languages.ExampleKeys | cms/forms/utils.py:23-42 | against the order [en-us, es-mx], en-gb has key 0, es has key 1, and fr and pt have key 2 |
| Languages.ExtraPlaced | cms/forms/utils.py:29-44 | a configured language outside the order occurs in any possible result, and only after the order |
| Languages.ExtrasInKeyOrder | cms/forms/utils.py:44 | of two extras, any possible result places the one with the smaller key first |
| Languages.LinkingSiteExample | cms/forms/utils.py:18-44 | linking from [en-us, es-mx], every possible result tries en-gb before es, and es before fr and pt, whatever else is configured and whatever order the set yields |
| Choices.FirstSeen | cms/forms/utils.py:56-59 | the index of the first title of a page on a site, or the number of titles when there is none |
| Choices.SeenFirst | cms/forms/utils.py:56-59 | a page has a title on a site exactly when its first index is in range |
| Choices.SeenExtend | cms/forms/utils.py:56-59 | reading one more title adds its page and leaves the first index of every page already seen unchanged |
| Choices.GroupSiteKeys | cms/forms/utils.py:56-60 | `pages` and `sites` have the same keys: exactly the sites of the titles |
| Choices.GroupSiteNames | cms/forms/utils.py:60 | a site's name is the one on its last title |
| Choices.GroupPageKeys | cms/forms/utils.py:57-59 | within a site, the page keys are distinct and are exactly the pages that have a title there |
| Choices.GroupPageOrder | cms/forms/utils.py:57-59 | within a site, pages are kept in the order of their first title; a later title does not move a page |
| Choices.AddTitlePage | cms/forms/utils.py:57-59 | one grouping step sets the title's language on its own page and leaves every other page as it was |
| Choices.FilledExtend | cms/forms/utils.py:57-58 | reading one more title adds its page and language to the ones read |
| Choices.NotFilledBeforeEntry | cms/forms/utils.py:57-59 | before a page enters its site's group, none of its titles was read |
| Choices.GroupTitleSlots | cms/forms/utils.py:57-58 | a page has an entry for a language exactly when a title of that site, page and language was read |
| Choices.GroupTitleLast | cms/forms/utils.py:57-58 | the title kept for a page and language is the last one read for them: later titles overwrite earlier ones |
| Choices.GroupWellFormed | cms/forms/utils.py:54-60 | `Group` (the loop over `AddTitle` steps) gives one page group per site, distinct page keys that match its title maps, and every title filed under its own page |
| Choices.SelectTitleSpec | cms/forms/utils.py:77-84 | `SelectTitle`: nothing is selected exactly when no language of the order has a title; otherwise the title of the first language that has one |
| Choices.SelectTitleFirst | cms/forms/utils.py:79-82 | when the first k languages have no title and language k has one, that title is selected |
| Choices.TieDecidesTitle | cms/forms/utils.py:44-82 | a page with only fr and pt titles shows fr under [en, fr, pt] and pt under [en, pt, fr]; both orders are possible results for [en], so the set's order decides the title |
| Choices.Indent | cms/forms/utils.py:86 | the indent is empty for `n <= 0`, else `12 * n` characters long |
| Choices.IndentContents | cms/forms/utils.py:86 | character k of the indent is character `k % 12` of `"&nbsp;&nbsp;"` |
| Choices.SelectedOnPage | cms/forms/utils.py:77-88 | the title selected for a page belongs to that page, so its entry carries the page's own pk |
| Choices.ListedRowOf | cms/forms/utils.py:83-88 | `PageRowOf` (one page's entry) lists that page alone, and only when one of its languages has a title |
| Choices.PageRowsListed | cms/forms/utils.py:77-88 | a page is listed exactly when some language of the order has a title for it; pages with none are skipped |
| Choices.PageRowsEntries | cms/forms/utils.py:77-88 | every entry is a page of the site, with `Label` as its caption: the indent and the escaped title chosen for it |
| Choices.PageRowsOrder | cms/forms/utils.py:77-88 | the entries keep the order of the page keys |
| Choices.LanguageOrderSpec | cms/forms/utils.py:65-71 | `RequestOrder` starts with `lang`, then its fallbacks, or is `lang` alone when the lookup failed; any possible expanded order starts with it and holds exactly it and the configured languages |
| Choices.SiteRowsSpec | cms/forms/utils.py:54-88 | `SiteRows`: a site's entries are exactly its pages with a title in some language of the order, each labelled with the title chosen for it, in the order of each page's first title |
| Choices.CollectPages | cms/forms/utils.py:54-60 | the grouping loop builds exactly `Group(titles)` |
| Choices.FirstTitle | cms/forms/utils.py:78-82 | the language loop, with its `break`, returns exactly `SelectTitle` |
| Choices.SitePageChoices | cms/forms/utils.py:76-88 | the page loop builds exactly the site's rows, skipping pages with no selected title |
| Choices.ListSites | cms/forms/utils.py:62-90 | `site_choices` names every site exactly once with its name; `page_choices` is the blank entry followed by one (name, rows) group per site, in the same order |
| Choices.BuildChoices | cms/forms/utils.py:47-90 | the built lists satisfy `ChoicesFor`: they are `ChoicesOf` the grouped titles for some possible expanded order of the language and its fallbacks |
| ChoiceCache.StoreKeepsConsistent | cms/forms/utils.py:93-94 | writing both lists of one build for a language keeps every stored value the matching half of a build for its language |
| ChoiceCache.RemoveKeepsConsistent | cms/forms/utils.py:116-119 | removing keys keeps every remaining value the matching half of a build for its language |
| ChoiceCache.Cache.constructor | cms/forms/utils.py:91 | a new cache is empty and consistent |
| ChoiceCache.Cache.UpdateSiteAndPageChoices | cms/forms/utils.py:47-95 | returns lists that satisfy `ChoicesFor`, stores them under the language's two keys as halves of one build, and changes no other entry |
| ChoiceCache.Cache.GetSiteChoices | cms/forms/utils.py:98-104 | on a hit, returns the stored site list and leaves the cache unchanged; on a miss, rebuilds, stores both lists and returns the new site list; either way the result is the site half of a build for the language |
| ChoiceCache.Cache.GetPageChoices | cms/forms/utils.py:107-113 | on a hit, returns the stored page list and leaves the cache unchanged; on a miss, rebuilds, stores both lists and returns the new page list; either way the result is the page half of a build for the language |
| ChoiceCache.Cache.ClearSiteChoices | cms/forms/utils.py:117-119 | the site list of every language is removed, the page lists are kept, and the cache stays consistent |
| ChoiceCache.Cache.ClearPageChoices | cms/forms/utils.py:116-118 | the page list of every language is removed, the site lists are kept, and the cache stays consistent |
| ChoiceCache.Cache.Evict | cms/forms/utils.py:93-94 | one key is removed, as the 86400-second expiry or an eviction does, and nothing else changes |
| ChoiceCache.Cache.SiteAndPageChoices | cms/forms/utils.py:98-113 | reading the site list and then the page list gives each list as its half of some build for the language; they are halves of one build when the site read misses, or when the two stored halves already were |
| Alias.AnyPointsBack | cms/models/aliaspluginmodel.py:33-38 | `exists()` is true exactly when some row passes both filters (`PointsBack`) |
| Alias.IsRecursiveFails | cms/models/aliaspluginmodel.py:25-26 | the check fails exactly when `plugin_id` is set and that plugin does not exist |
| Alias.NoTargetNotRecursive | cms/models/aliaspluginmodel.py:30-31 | with no target placeholder (`None` or 0) the answer is false |
| Alias.IsRecursiveIff | cms/models/aliaspluginmodel.py:33-38 | `IsRecursive` (`is_recursive`), with a target: true exactly when an `AliasPlugin` row in the target aliases this record or this record's placeholder |
| Alias.IsRecursiveLocal | cms/models/aliaspluginmodel.py:33-36 | rows outside the target placeholder, or of another plugin type, never change the answer |
| Alias.IsRecursiveMonotone | cms/models/aliaspluginmodel.py:33-38 | adding rows can turn false into true, never true into false |
| Alias.SelfAliasRecursive | cms/models/aliaspluginmodel.py:24-38 | a stored alias with no plugin that aliases its own placeholder is recursive, since it matches itself |
| Alias.ThreeCycleNotDetected | cms/models/aliaspluginmodel.py:33-38 | three aliases showing each other's placeholders in a cycle are not found recursive: the check looks one hop deep |
| Alias.TwoCycleDetected | cms/models/aliaspluginmodel.py:33-38 | two aliases showing each other's placeholders are both found recursive |

## Left out

- The title query and its eager loading (cms/forms/utils.py:51-53). The draft titles are an input sequence already in page-path order.
- `i18n.get_current_language`, `i18n.get_fallback_languages` and `settings.LANGUAGES`. These are inputs: the current language, a fallback lookup that returns `None` where the call raises `LanguageError`, and the configured codes.
- `escape` is an uninterpreted string function. `mark_safe` is a type tag (`SafeHtml`).
- Choices.BuildChoices: the enumeration order of the Python set of extra languages. The method enumerates the extras in configured order, which is one possible order. Its contract, and every contract built on it, promises only the choices for some possible expanded order (`Languages.IsExpansion`). Which of two languages with equal keys is tried first is left open, as in the program (`Languages.TiedExtrasEitherOrder`, `Choices.TieDecidesTitle`).
- The iteration order of the `sites` dict. `ListSites` takes the sites in an arbitrary order. The contracts only pin that `site_choices` and `page_choices` list the sites in the same order.
- The real key functions `_site_cache_key` / `_page_cache_key`. The keys are a datatype whose two kinds are distinct by construction.
- The cache's 86400-second expiry as a clock. `ChoiceCache.Cache.Evict` removes any single key at any time, which covers expiry and eviction.
- ChoiceCache.Cache.ClearSiteChoices and ChoiceCache.Cache.ClearPageChoices: the handlers live in cms.cache.choices, which is not part of this model. They are modelled as removing that kind of list for every language. The signal dispatch that calls them (cms/forms/utils.py:116-119) is the framework's.
- Stored lists can be stale. The model records which titles each stored half was built from, and it does not compare those with the current titles.
- ChoiceCache.Cache.SiteAndPageChoices: promises that the two lists come from one build only when the site read misses, or when the stored halves already were of one build. After a clear of one kind, or an eviction, the program can return halves of two builds.
- Concurrent writers to the shared cache.
- `AliasPluginModel.__str__` (cms/models/aliaspluginmodel.py:18-22). It calls plugin methods that are not part of this model.
- The model field declarations and `Meta` of `AliasPluginModel`. Only the four fields `is_recursive` reads are kept.
- ChoiceCache.Cache.GetSiteChoices and ChoiceCache.Cache.GetPageChoices: a hit is a key that is present. The cache backend's own rule that a stored `None` reads as a miss is not modelled, because the builder never stores `None`.
