/**
 * The language fallback order used to pick a page title for the page dropdown
 * (`get_expanded_language_order` in cms/forms/utils.py).
 *
 * The request's own order (`[lang] + fallbacks`) is kept as it is, and every other
 * configured language is appended, sorted by how early its base language occurs
 * in the request's order.
 */
module Languages {
  import opened Common

  /** `lang.split('-')[0]`: the text before the first '-', or all of `lang`. */
  function BaseLanguage(lang: string): string {
    if lang == [] || lang[0] == '-' then [] else [lang[0]] + BaseLanguage(lang[1..])
  }

  /** The base is the longest prefix of `lang` without a '-'. */
  lemma {:induction false} BaseLanguageSpec(lang: string)
    ensures BaseLanguage(lang) <= lang
    ensures '-' !in BaseLanguage(lang)
    ensures BaseLanguage(lang) == lang || lang[|BaseLanguage(lang)|] == '-'
  {
    if lang != [] && lang[0] != '-' {
      BaseLanguageSpec(lang[1..]);
      assert lang == [lang[0]] + lang[1..];
    }
  }

  /** `language_order_bases`: the base of every entry of `order`, position by position. */
  function Bases(order: seq<string>): seq<string>
  {
    seq(|order|, i requires 0 <= i < |order| => BaseLanguage(order[i]))
  }

  /**
   * The sort key of `lang`: the index of the first entry of `order` with the same
   * base language, or `|order|` when no entry has it.
   */
  function BaseKey(order: seq<string>, lang: string): (k: nat)
    ensures k <= |order|
  {
    if order == [] then 0
    else if BaseLanguage(order[0]) == BaseLanguage(lang) then 0
    else 1 + BaseKey(order[1..], lang)
  }

  /** The key is the first position whose base matches, and no earlier one matches. */
  lemma {:induction false} BaseKeySpec(order: seq<string>, lang: string)
    ensures BaseKey(order, lang) < |order| ==> BaseLanguage(order[BaseKey(order, lang)]) == BaseLanguage(lang)
    ensures forall j :: 0 <= j < BaseKey(order, lang) ==> BaseLanguage(order[j]) != BaseLanguage(lang)
  {
    if order != [] && BaseLanguage(order[0]) != BaseLanguage(lang) {
      BaseKeySpec(order[1..], lang);
      assert forall j :: 0 < j < |order| ==> order[j] == order[1..][j - 1];
    }
  }

  /** `position_of_base_in_language_order`: a linear search over the precomputed bases. */
  method PositionOfBaseInLanguageOrder(order: seq<string>, lang: string) returns (k: nat)
    ensures k <= |order|
    ensures k < |order| ==> BaseLanguage(order[k]) == BaseLanguage(lang)
    ensures forall j :: 0 <= j < k ==> BaseLanguage(order[j]) != BaseLanguage(lang)
    ensures k == BaseKey(order, lang)
  {
    var bases := Bases(order);
    assert |bases| == |order| && forall j :: 0 <= j < |order| ==> bases[j] == BaseLanguage(order[j]);
    var langBase := BaseLanguage(lang);
    BaseKeySpec(order, lang);
    k := 0;
    while k < |bases|
      invariant k <= |bases|
      invariant forall j :: 0 <= j < k ==> bases[j] != langBase
    {
      if bases[k] == langBase {
        return;
      }
      k := k + 1;
    }
  }

  /**
   * `all_languages.difference(language_order)`: the configured languages that are not
   * in `order`, each once. A Python set has no order of its own; the model enumerates
   * it in the order the languages are first configured.
   */
  function Extras(order: seq<string>, languages: seq<string>): (extras: seq<string>)
    ensures NoDup(extras)
    ensures forall l :: l in extras <==> l in languages && l !in order
  {
    if languages == [] then []
    else
      var extras := Extras(order, languages[..|languages| - 1]);
      var l := languages[|languages| - 1];
      assert languages == languages[..|languages| - 1] + [l];
      if l in order || l in extras then extras else extras + [l]
  }

  /** `position_of_base_in_language_order` as the key function of the sort. */
  function KeyOf(order: seq<string>): string -> nat {
    lang => BaseKey(order, lang)
  }

  /** The keys of `s` never decrease. */
  predicate SortedByKey(key: string -> nat, s: seq<string>) {
    forall i, j :: 0 <= i < j < |s| ==> key(s[i]) <= key(s[j])
  }

  /** Puts `x` after every element of `s` whose key is not larger (keeps the sort stable). */
  function InsertByKey(key: string -> nat, x: string, s: seq<string>): (r: seq<string>)
    ensures multiset(r) == multiset(s) + multiset{x}
  {
    if s == [] then [x]
    else if key(x) < key(s[0]) then [x] + s
    else
      assert s == [s[0]] + s[1..];
      [s[0]] + InsertByKey(key, x, s[1..])
  }

  /** Every key in `s` is at least `b`. */
  predicate KeysAtLeast(key: string -> nat, s: seq<string>, b: int) {
    forall i :: 0 <= i < |s| ==> b <= key(s[i])
  }

  lemma {:induction false} InsertKeepsLowerBound(key: string -> nat, x: string, s: seq<string>, b: int)
    requires KeysAtLeast(key, s, b) && b <= key(x)
    ensures KeysAtLeast(key, InsertByKey(key, x, s), b)
  {
    if s != [] && key(s[0]) <= key(x) {
      InsertKeepsLowerBound(key, x, s[1..], b);
    }
  }

  /** A sorted sequence stays sorted under a head whose key is not larger than any of its keys. */
  lemma SortedCons(key: string -> nat, head: string, rest: seq<string>)
    requires SortedByKey(key, rest) && KeysAtLeast(key, rest, key(head))
    ensures SortedByKey(key, [head] + rest)
  {
    var r := [head] + rest;
    forall i, j | 0 <= i < j < |r| ensures key(r[i]) <= key(r[j]) {
      assert r[j] == rest[j - 1];
      if 0 < i {
        assert r[i] == rest[i - 1];
      }
    }
  }

  lemma {:induction false} InsertKeepsSorted(key: string -> nat, x: string, s: seq<string>)
    requires SortedByKey(key, s)
    ensures SortedByKey(key, InsertByKey(key, x, s))
  {
    if s != [] && key(s[0]) <= key(x) {
      var tail := s[1..];
      assert SortedByKey(key, tail) && KeysAtLeast(key, tail, key(s[0]));
      InsertKeepsSorted(key, x, tail);
      InsertKeepsLowerBound(key, x, tail, key(s[0]));
      SortedCons(key, s[0], InsertByKey(key, x, tail));
    }
  }

  lemma {:induction false} InsertKeepsNoDup(key: string -> nat, x: string, s: seq<string>)
    requires NoDup(s) && x !in s
    ensures NoDup(InsertByKey(key, x, s))
  {
    if s != [] && key(s[0]) <= key(x) {
      var rest := InsertByKey(key, x, s[1..]);
      assert s == [s[0]] + s[1..];
      InsertKeepsNoDup(key, x, s[1..]);
      assert s[0] !in multiset(s[1..]) + multiset{x};
      assert s[0] !in rest;
    }
  }

  /** `sorted(…, key=…)`, as a stable insertion sort. */
  function SortByKey(key: string -> nat, s: seq<string>): (r: seq<string>)
    ensures multiset(r) == multiset(s)
  {
    if s == [] then []
    else
      assert s == s[..|s| - 1] + [s[|s| - 1]];
      InsertByKey(key, s[|s| - 1], SortByKey(key, s[..|s| - 1]))
  }

  lemma {:induction false} SortByKeySorted(key: string -> nat, s: seq<string>)
    ensures SortedByKey(key, SortByKey(key, s))
  {
    if s != [] {
      SortByKeySorted(key, s[..|s| - 1]);
      InsertKeepsSorted(key, s[|s| - 1], SortByKey(key, s[..|s| - 1]));
    }
  }

  lemma {:induction false} SortByKeyNoDup(key: string -> nat, s: seq<string>)
    requires NoDup(s)
    ensures NoDup(SortByKey(key, s))
  {
    if s != [] {
      var init, x := s[..|s| - 1], s[|s| - 1];
      assert forall j :: 0 <= j < |init| ==> init[j] == s[j];
      assert x !in init;
      SortByKeyNoDup(key, init);
      assert x !in multiset(SortByKey(key, init));
      InsertKeepsNoDup(key, x, SortByKey(key, init));
    }
  }

  /** `get_expanded_language_order(language_order)`, with `settings.LANGUAGES` as `languages`. */
  function ExpandedLanguageOrder(order: seq<string>, languages: seq<string>): seq<string>
  {
    order + SortByKey(KeyOf(order), Extras(order, languages))
  }

  /**
   * `r` is a result `get_expanded_language_order(order)` can return, whatever order the
   * set of extra languages is enumerated in: `order` unchanged, followed by exactly the
   * configured languages not in `order`, each once, with non-decreasing keys.
   */
  ghost predicate IsExpansion(order: seq<string>, languages: seq<string>, r: seq<string>) {
    && |order| <= |r|
    && r[..|order|] == order
    && NoDup(r[|order|..])
    && (forall l :: l in r[|order|..] <==> l in languages && l !in order)
    && SortedByKey(KeyOf(order), r[|order|..])
  }

  /** The model's enumeration of the set gives one of the possible results. */
  lemma ExpandedLanguageOrderSpec(order: seq<string>, languages: seq<string>)
    ensures IsExpansion(order, languages, ExpandedLanguageOrder(order, languages))
  {
    var extras := Extras(order, languages);
    var tail := SortByKey(KeyOf(order), extras);
    var r := ExpandedLanguageOrder(order, languages);
    assert r[..|order|] == order && r[|order|..] == tail;
    SortByKeySorted(KeyOf(order), extras);
    SortByKeyNoDup(KeyOf(order), extras);
    forall l ensures l in tail <==> l in extras {
      assert l in tail <==> l in multiset(tail);
    }
  }

  /** Against [en], fr and pt both have key 1. */
  lemma FrenchAndPortugueseTied()
    ensures BaseKey(["en"], "fr") == 1 && BaseKey(["en"], "pt") == 1
  {
    PlainBase("en");
    PlainBase("fr");
    PlainBase("pt");
    assert ["en"][1..] == [];
  }

  /** [en, fr, pt] is a possible result for [en] over the configured [fr, pt]. */
  lemma FrenchFirst()
    ensures IsExpansion(["en"], ["fr", "pt"], ["en", "fr", "pt"])
  {
    FrenchAndPortugueseTied();
    assert ["en", "fr", "pt"][1..] == ["fr", "pt"];
  }

  /** [en, pt, fr] is a possible result for [en] over the configured [fr, pt]. */
  lemma PortugueseFirst()
    ensures IsExpansion(["en"], ["fr", "pt"], ["en", "pt", "fr"])
  {
    FrenchAndPortugueseTied();
    assert ["en", "pt", "fr"][1..] == ["pt", "fr"];
  }

  /**
   * Languages with the same key may come in either order: against [en], both
   * [en, fr, pt] and [en, pt, fr] are possible results over the configured [fr, pt].
   */
  lemma TiedExtrasEitherOrder()
    ensures IsExpansion(["en"], ["fr", "pt"], ["en", "fr", "pt"])
    ensures IsExpansion(["en"], ["fr", "pt"], ["en", "pt", "fr"])
  {
    FrenchFirst();
    PortugueseFirst();
  }

  /** Every key lies between 0 and the length of the request's order. */
  lemma BaseKeyBounds(order: seq<string>, lang: string)
    ensures 0 <= BaseKey(order, lang) <= |order|
    ensures BaseKey(order, lang) == |order| <==> forall j :: 0 <= j < |order| ==> BaseLanguage(order[j]) != BaseLanguage(lang)
  {
    BaseKeySpec(order, lang);
  }

  /** In a sequence sorted by key, an element with a smaller key comes first. */
  lemma SortedIndexOrder(key: string -> nat, s: seq<string>, a: int, b: int)
    requires SortedByKey(key, s)
    requires 0 <= a < |s| && 0 <= b < |s| && key(s[a]) < key(s[b])
    ensures a < b
  {
  }

  /** In the appended tail of any possible result, a language with a smaller key comes first. */
  lemma SmallerKeyFirst(order: seq<string>, languages: seq<string>, r: seq<string>, i: int, j: int)
    requires IsExpansion(order, languages, r)
    requires |order| <= i < |r| && |order| <= j < |r| && BaseKey(order, r[i]) < BaseKey(order, r[j])
    ensures i < j
  {
    TailOrder(KeyOf(order), r, |order|, i, j);
  }
  /** In a sequence whose part from `p` on is sorted by key, a smaller key there comes first. */
  lemma TailOrder(key: string -> nat, r: seq<string>, p: nat, i: int, j: int)
    requires p <= |r| && SortedByKey(key, r[p..])
    requires p <= i < |r| && p <= j < |r| && key(r[i]) < key(r[j])
    ensures i < j
  {
    assert r[p..][i - p] == r[i] && r[p..][j - p] == r[j];
    SortedIndexOrder(key, r[p..], i - p, j - p);
  }

  /** A two-letter code without '-' is its own base. */
  lemma PlainBase(lang: string)
    requires |lang| == 2 && lang[0] != '-' && lang[1] != '-'
    ensures BaseLanguage(lang) == lang
  {
    var rest := lang[1..];
    assert rest[1..] == [];
    assert BaseLanguage(rest) == [rest[0]] + BaseLanguage(rest[1..]) == [lang[1]];
    assert lang == [lang[0]] + [lang[1]];
  }

  /** A code `xx-yy` has the base `xx`. */
  lemma RegionalBase(lang: string)
    requires |lang| == 5 && lang[0] != '-' && lang[1] != '-' && lang[2] == '-'
    ensures BaseLanguage(lang) == lang[..2]
  {
    var rest := lang[1..];
    assert rest[1..][0] == '-';
    assert BaseLanguage(rest[1..]) == [];
    assert BaseLanguage(rest) == [rest[0]] + BaseLanguage(rest[1..]) == [lang[1]];
    assert lang[..2] == [lang[0]] + [lang[1]];
  }

  /** The base languages of the example's languages. */
  lemma ExampleBases()
    ensures BaseLanguage("en-us") == BaseLanguage("en-gb") == "en"
    ensures BaseLanguage("es-mx") == BaseLanguage("es") == "es"
    ensures BaseLanguage("fr") == "fr" && BaseLanguage("pt") == "pt"
  {
    RegionalBase("en-us");
    RegionalBase("en-gb");
    RegionalBase("es-mx");
    PlainBase("es");
    PlainBase("fr");
    PlainBase("pt");
  }

  /** The keys of the example's languages against the order [en-us, es-mx]. */
  lemma ExampleKeys()
    ensures BaseKey(["en-us", "es-mx"], "en-gb") == 0
    ensures BaseKey(["en-us", "es-mx"], "es") == 1
    ensures BaseKey(["en-us", "es-mx"], "fr") == 2
    ensures BaseKey(["en-us", "es-mx"], "pt") == 2
  {
    ExampleBases();
    var order := ["en-us", "es-mx"];
    assert order[1..] == ["es-mx"] && order[1..][1..] == [];
  }

  /** Every occurrence of `a` in `r` precedes every occurrence of `b`. */
  predicate AllBefore(r: seq<string>, a: string, b: string) {
    forall i, j :: 0 <= i < |r| && 0 <= j < |r| && r[i] == a && r[j] == b ==> i < j
  }

  /** A configured language outside `order` occurs in any possible result, and only after `order`. */
  lemma ExtraPlaced(order: seq<string>, languages: seq<string>, r: seq<string>, l: string)
    requires IsExpansion(order, languages, r)
    requires l in languages && l !in order
    ensures l in r && forall k :: 0 <= k < |r| && r[k] == l ==> |order| <= k
  {
    var tail := r[|order|..];
    assert l in tail;
    var t :| 0 <= t < |tail| && tail[t] == l;
    assert r[|order| + t] == l;
    forall k | 0 <= k < |order| ensures r[k] == order[k] {
      assert r[..|order|][k] == r[k];
    }
  }

  /** Of two extras with keys in increasing order, any possible result places them in that order. */
  lemma ExtrasInKeyOrder(order: seq<string>, languages: seq<string>, r: seq<string>, a: string, b: string)
    requires IsExpansion(order, languages, r)
    requires a in languages && a !in order && b in languages && b !in order
    requires BaseKey(order, a) < BaseKey(order, b)
    ensures a in r && b in r && AllBefore(r, a, b)
  {
    ExtraPlaced(order, languages, r, a);
    ExtraPlaced(order, languages, r, b);
    forall i, j | 0 <= i < |r| && 0 <= j < |r| && r[i] == a && r[j] == b ensures i < j {
      SmallerKeyFirst(order, languages, r, i, j);
    }
  }

  /**
   * The case the source's comment describes: linking from a site whose languages are
   * [en-us, es-mx], the en-gb title is preferred to the es title, and that to the fr
   * and pt titles, whatever else is configured and whatever order the set yields.
   */
  lemma LinkingSiteExample(languages: seq<string>, r: seq<string>)
    requires IsExpansion(["en-us", "es-mx"], languages, r)
    requires "en-gb" in languages && "es" in languages && "fr" in languages && "pt" in languages
    ensures && "en-gb" in r && "es" in r && "fr" in r && "pt" in r
            && AllBefore(r, "en-gb", "es") && AllBefore(r, "es", "fr") && AllBefore(r, "es", "pt")
  {
    var order := ["en-us", "es-mx"];
    ExampleKeys();
    ExtrasInKeyOrder(order, languages, r, "en-gb", "es");
    ExtrasInKeyOrder(order, languages, r, "es", "fr");
    ExtrasInKeyOrder(order, languages, r, "es", "pt");
  }
}
