/**
 * The recursion check of an alias plugin (`AliasPluginModel.is_recursive` in
 * cms/models/aliaspluginmodel.py).
 *
 * An alias shows either one plugin or a whole placeholder. Before rendering it, the
 * CMS asks whether the content it shows holds an alias that points straight back:
 * an `AliasPlugin` in the target placeholder that aliases this very record, or that
 * aliases the placeholder this record sits in. The check looks one hop deep.
 */
module Alias {
  import opened Common

  /** One `AliasPluginModel` row, with the `CMSPlugin` fields it inherits. */
  datatype AliasRecord = AliasRecord(
    id: int,                      // pk (the `cmsplugin_ptr`)
    pluginType: string,           // plugin_type
    placeholder: Option<int>,     // placeholder_id
    plugin: Option<int>,          // plugin_id: the aliased plugin
    aliasPlaceholder: Option<int>) // alias_placeholder_id: the aliased placeholder

  /** The store: the placeholder of every `CMSPlugin` by pk, and the `AliasPluginModel` rows. */
  datatype Store = Store(placeholderOf: map<int, Option<int>>, aliases: seq<AliasRecord>)

  /** A lookup that raises `DoesNotExist` when a foreign key names a missing row. */
  datatype Lookup<T> = Found(value: T) | PluginDoesNotExist

  const AliasPluginType: string := "AliasPlugin"

  /** Python truthiness of a nullable integer key: neither `None` nor `0`. */
  predicate IsSet(id: Option<int>) {
    id.Some? && id.value != 0
  }

  /**
   * The placeholder the alias shows: the aliased plugin's placeholder when `plugin_id`
   * is set (reading that plugin fails if it is gone), otherwise the aliased placeholder.
   */
  function TargetPlaceholder(self: AliasRecord, store: Store): Lookup<Option<int>>
  {
    if IsSet(self.plugin) then
      if self.plugin.value in store.placeholderOf then Found(store.placeholderOf[self.plugin.value])
      else PluginDoesNotExist
    else Found(self.aliasPlaceholder)
  }

  /**
   * `r` passes both filters: an `AliasPlugin` in placeholder `target` that aliases
   * `self`, or whose aliased placeholder is `self`'s placeholder (`None` matching `None`,
   * as `alias_placeholder=None` is an `IS NULL` test).
   */
  predicate PointsBack(self: AliasRecord, target: int, r: AliasRecord) {
    && r.pluginType == AliasPluginType
    && r.placeholder == Some(target)
    && (r.plugin == Some(self.id) || r.aliasPlaceholder == self.placeholder)
  }

  /** `.exists()` over the filtered rows. */
  function AnyPointsBack(self: AliasRecord, target: int, rs: seq<AliasRecord>): (b: bool)
    ensures b <==> exists i :: 0 <= i < |rs| && PointsBack(self, target, rs[i])
  {
    if rs == [] then false
    else
      var b := AnyPointsBack(self, target, rs[..|rs| - 1]);
      assert forall i :: 0 <= i < |rs| - 1 ==> rs[..|rs| - 1][i] == rs[i];
      b || PointsBack(self, target, rs[|rs| - 1])
  }

  /** `is_recursive()`: `false` when there is no target placeholder, else the one-hop query. */
  function IsRecursive(self: AliasRecord, store: Store): Lookup<bool> {
    match TargetPlaceholder(self, store)
    case PluginDoesNotExist => PluginDoesNotExist
    case Found(target) =>
      if !IsSet(target) then Found(false)
      else Found(AnyPointsBack(self, target.value, store.aliases))
  }

  /** The check fails exactly when the aliased plugin is set but missing. */
  lemma IsRecursiveFails(self: AliasRecord, store: Store)
    ensures IsRecursive(self, store).PluginDoesNotExist? <==>
              IsSet(self.plugin) && self.plugin.value !in store.placeholderOf
  {
  }

  /** Without a target placeholder the answer is no, whatever the rows hold. */
  lemma NoTargetNotRecursive(self: AliasRecord, store: Store)
    requires TargetPlaceholder(self, store).Found? && !IsSet(TargetPlaceholder(self, store).value)
    ensures IsRecursive(self, store) == Found(false)
  {
  }

  /**
   * With a target placeholder, the answer is yes exactly when some row is an
   * `AliasPlugin` in it that aliases this record or this record's placeholder.
   */
  lemma IsRecursiveIff(self: AliasRecord, store: Store, target: int)
    requires TargetPlaceholder(self, store) == Found(Some(target)) && target != 0
    ensures IsRecursive(self, store).Found?
    ensures IsRecursive(self, store).value <==>
              exists i :: 0 <= i < |store.aliases| &&
                var r := store.aliases[i];
                r.pluginType == AliasPluginType && r.placeholder == Some(target)
                  && (r.plugin == Some(self.id) || r.aliasPlaceholder == self.placeholder)
  {
  }

  /** The rows that could take part: `AliasPlugin` rows in placeholder `target`. */
  predicate Candidate(target: int, r: AliasRecord) {
    r.pluginType == AliasPluginType && r.placeholder == Some(target)
  }

  /**
   * Only candidate rows matter: two stores with the same plugin placeholders that hold
   * the same candidate rows for the target give the same answer, whatever other rows
   * they hold.
   */
  lemma IsRecursiveLocal(self: AliasRecord, s1: Store, s2: Store, target: int)
    requires s1.placeholderOf == s2.placeholderOf
    requires TargetPlaceholder(self, s1) == Found(Some(target))
    requires forall r :: Candidate(target, r) ==> (r in s1.aliases <==> r in s2.aliases)
    ensures IsRecursive(self, s1) == IsRecursive(self, s2)
  {
    if target != 0 {
      if AnyPointsBack(self, target, s1.aliases) {
        var i :| 0 <= i < |s1.aliases| && PointsBack(self, target, s1.aliases[i]);
        assert Candidate(target, s1.aliases[i]);
        var j :| 0 <= j < |s2.aliases| && s2.aliases[j] == s1.aliases[i];
        assert PointsBack(self, target, s2.aliases[j]);
      }
      if AnyPointsBack(self, target, s2.aliases) {
        var i :| 0 <= i < |s2.aliases| && PointsBack(self, target, s2.aliases[i]);
        assert Candidate(target, s2.aliases[i]);
        var j :| 0 <= j < |s1.aliases| && s1.aliases[j] == s2.aliases[i];
        assert PointsBack(self, target, s1.aliases[j]);
      }
    }
  }

  /** Adding rows can turn the answer from no to yes, never from yes to no. */
  lemma IsRecursiveMonotone(self: AliasRecord, s1: Store, s2: Store)
    requires s1.placeholderOf == s2.placeholderOf
    requires forall r :: r in s1.aliases ==> r in s2.aliases
    requires IsRecursive(self, s1) == Found(true)
    ensures IsRecursive(self, s2) == Found(true)
  {
    var target := TargetPlaceholder(self, s1).value.value;
    var i :| 0 <= i < |s1.aliases| && PointsBack(self, target, s1.aliases[i]);
    assert s1.aliases[i] in s2.aliases;
    var j :| 0 <= j < |s2.aliases| && s2.aliases[j] == s1.aliases[i];
    assert PointsBack(self, target, s2.aliases[j]);
  }

  /**
   * A stored alias with no plugin that aliases its own placeholder is recursive: it
   * is itself a row in its target placeholder that aliases that placeholder.
   */
  lemma SelfAliasRecursive(self: AliasRecord, store: Store)
    requires self in store.aliases
    requires self.pluginType == AliasPluginType && !IsSet(self.plugin)
    requires IsSet(self.aliasPlaceholder) && self.aliasPlaceholder == self.placeholder
    ensures IsRecursive(self, store) == Found(true)
  {
    var i :| 0 <= i < |store.aliases| && store.aliases[i] == self;
    assert PointsBack(self, self.aliasPlaceholder.value, store.aliases[i]);
  }

  /**
   * The check looks one hop deep. Placeholders 1, 2 and 3 hold aliases a, b and c;
   * a shows placeholder 2, b shows 3 and c shows 1. That is a cycle, yet none of the
   * three is found recursive, since no alias sits in the placeholder its target shows.
   */
  lemma ThreeCycleNotDetected()
    ensures var a := AliasRecord(10, AliasPluginType, Some(1), None, Some(2));
      var b := AliasRecord(20, AliasPluginType, Some(2), None, Some(3));
      var c := AliasRecord(30, AliasPluginType, Some(3), None, Some(1));
      var store := Store(map[], [a, b, c]);
      IsRecursive(a, store) == Found(false)
      && IsRecursive(b, store) == Found(false)
      && IsRecursive(c, store) == Found(false)
  {
    var a := AliasRecord(10, AliasPluginType, Some(1), None, Some(2));
    var b := AliasRecord(20, AliasPluginType, Some(2), None, Some(3));
    var c := AliasRecord(30, AliasPluginType, Some(3), None, Some(1));
    var rs := [a, b, c];
    assert !PointsBack(a, 2, a) && !PointsBack(a, 2, b) && !PointsBack(a, 2, c);
    assert !PointsBack(b, 3, a) && !PointsBack(b, 3, b) && !PointsBack(b, 3, c);
    assert !PointsBack(c, 1, a) && !PointsBack(c, 1, b) && !PointsBack(c, 1, c);
  }

  /** Two aliases that show each other's placeholders are both found recursive. */
  lemma TwoCycleDetected()
    ensures var a := AliasRecord(10, AliasPluginType, Some(1), None, Some(2));
      var b := AliasRecord(20, AliasPluginType, Some(2), None, Some(1));
      var store := Store(map[], [a, b]);
      IsRecursive(a, store) == Found(true) && IsRecursive(b, store) == Found(true)
  {
    var a := AliasRecord(10, AliasPluginType, Some(1), None, Some(2));
    var b := AliasRecord(20, AliasPluginType, Some(2), None, Some(1));
    assert PointsBack(a, 2, b) && PointsBack(b, 1, a);
    assert [a, b][1] == b && [a, b][0] == a;
  }
}
