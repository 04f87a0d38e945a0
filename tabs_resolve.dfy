/**
 * `resolveInitialValue`: the selection a `Tabs` container starts with, chosen
 * by a fixed precedence: the URL query parameter, the value persisted for the
 * group in session storage, the `defaultValue` prop, the first item flagged
 * `default`, the first item, and finally `""`. The URL's query parameters and
 * session storage are given as maps.
 */
module TabsResolve {
  import opened Wrappers
  import opened TabItems
  import opened TabsConfig

  /** The query-string candidate: the named URL parameter, read only when query mode is on. */
  function UrlCandidate(p: Props, query: map<string, string>): Option<string> {
    if QueryEnabled(p.queryString) then Lookup(query, ParamName(p.queryString, p.groupId)) else None
  }

  /** The session-storage candidate: the group's stored value, read only when the group id is truthy. */
  function StoredCandidate(p: Props, storage: map<string, string>): Option<string> {
    if Truthy(p.groupId) then Lookup(storage, StorageKey(p.groupId.value)) else None
  }

  /** A candidate is taken only when it is truthy and some item has it as its value. */
  predicate Accepts(items: seq<TabItem>, c: Option<string>) {
    Truthy(c) && HasValue(items, c.value)
  }

  /** Steps 4 and 5: the first `default`-flagged item, else the first item, else `""`. */
  function FallbackValue(items: seq<TabItem>): (r: string)
    ensures items == [] ==> r == ""
    ensures items != [] ==> HasValue(items, r)
  {
    match FirstDefault(items)
    case Some(k) => items[k].value
    case None => if items == [] then "" else items[0].value
  }

  /** The initial selection of a container over `items`. */
  function ResolveInitialValue(p: Props, items: seq<TabItem>,
                               query: map<string, string>, storage: map<string, string>): (r: string)
    ensures items == [] ==> r == ""
    ensures items != [] ==> HasValue(items, r)
  {
    var fromUrl := UrlCandidate(p, query);
    var stored := StoredCandidate(p, storage);
    if Accepts(items, fromUrl) then fromUrl.value
    else if Accepts(items, stored) then stored.value
    else if Accepts(items, p.defaultValue) then p.defaultValue.value
    else FallbackValue(items)
  }

  /**
   * Rule 1: in query mode a non-empty parameter value that names an item wins
   * over storage, `defaultValue` and `default` flags.
   */
  lemma QueryParamWins(p: Props, items: seq<TabItem>, query: map<string, string>,
                       storage: map<string, string>)
    requires QueryEnabled(p.queryString)
    requires ParamName(p.queryString, p.groupId) in query
    requires query[ParamName(p.queryString, p.groupId)] != ""
    requires HasValue(items, query[ParamName(p.queryString, p.groupId)])
    ensures ResolveInitialValue(p, items, query, storage) == query[ParamName(p.queryString, p.groupId)]
  {
  }

  /**
   * Rule 2: failing rule 1, a truthy group id whose stored value is non-empty
   * and names an item selects that value.
   */
  lemma StoredValueWins(p: Props, items: seq<TabItem>, query: map<string, string>,
                        storage: map<string, string>)
    requires !Accepts(items, UrlCandidate(p, query))
    requires p.groupId.Some? && p.groupId.value != ""
    requires StorageKey(p.groupId.value) in storage
    requires storage[StorageKey(p.groupId.value)] != ""
    requires HasValue(items, storage[StorageKey(p.groupId.value)])
    ensures ResolveInitialValue(p, items, query, storage) == storage[StorageKey(p.groupId.value)]
  {
  }

  /** Rule 3: failing rules 1 and 2, a non-empty `defaultValue` that names an item. */
  lemma DefaultValueWins(p: Props, items: seq<TabItem>, query: map<string, string>,
                         storage: map<string, string>)
    requires !Accepts(items, UrlCandidate(p, query))
    requires !Accepts(items, StoredCandidate(p, storage))
    requires p.defaultValue.Some? && p.defaultValue.value != ""
    requires HasValue(items, p.defaultValue.value)
    ensures ResolveInitialValue(p, items, query, storage) == p.defaultValue.value
  {
  }

  /**
   * Rules 4 and 5: with no accepted candidate, the first item flagged
   * `default` is selected; with no flagged item, the first item; with no
   * items, `""`.
   */
  lemma FallbackOrder(p: Props, items: seq<TabItem>, query: map<string, string>,
                      storage: map<string, string>, k: nat)
    requires !Accepts(items, UrlCandidate(p, query))
    requires !Accepts(items, StoredCandidate(p, storage))
    requires !Accepts(items, p.defaultValue)
    requires k < |items| && items[k].isDefault
    requires forall j :: 0 <= j < k ==> !items[j].isDefault
    ensures ResolveInitialValue(p, items, query, storage) == items[k].value
  {
  }

  /** Rule 5: with no accepted candidate and no item flagged `default`, the first item. */
  lemma FirstItemFallback(p: Props, items: seq<TabItem>, query: map<string, string>,
                          storage: map<string, string>)
    requires !Accepts(items, UrlCandidate(p, query))
    requires !Accepts(items, StoredCandidate(p, storage))
    requires !Accepts(items, p.defaultValue)
    requires items != [] && forall j :: 0 <= j < |items| ==> !items[j].isDefault
    ensures ResolveInitialValue(p, items, query, storage) == items[0].value
  {
  }

  /**
   * The selection is `""` exactly when there are no items, provided no item
   * has the empty string as its value.
   */
  lemma EmptyOnlyWithoutItems(p: Props, items: seq<TabItem>, query: map<string, string>,
                              storage: map<string, string>)
    requires forall j :: 0 <= j < |items| ==> items[j].value != ""
    ensures ResolveInitialValue(p, items, query, storage) == "" <==> items == []
  {
  }

  /**
   * Every source: the result is the first accepted candidate among the URL
   * value, the stored value and `defaultValue`, or the fallback when none is
   * accepted.
   */
  lemma ResolveFromCandidates(p: Props, items: seq<TabItem>, query: map<string, string>,
                              storage: map<string, string>)
    ensures var r := ResolveInitialValue(p, items, query, storage);
            var cs := [UrlCandidate(p, query), StoredCandidate(p, storage), p.defaultValue];
            (exists i :: 0 <= i < 3 && Accepts(items, cs[i]) && r == cs[i].value
                         && forall j :: 0 <= j < i ==> !Accepts(items, cs[j]))
            || ((forall i :: 0 <= i < 3 ==> !Accepts(items, cs[i])) && r == FallbackValue(items))
  {
    var cs := [UrlCandidate(p, query), StoredCandidate(p, storage), p.defaultValue];
    if Accepts(items, cs[0]) {
      assert 0 <= 0 < 3;
    } else if Accepts(items, cs[1]) {
      assert forall j :: 0 <= j < 1 ==> !Accepts(items, cs[j]);
    } else if Accepts(items, cs[2]) {
      assert forall j :: 0 <= j < 2 ==> !Accepts(items, cs[j]);
    }
  }

  /** Without a truthy group id, session storage has no influence (an empty id disables persistence). */
  lemma StorageIgnoredWithoutGroup(p: Props, items: seq<TabItem>, query: map<string, string>,
                                   s1: map<string, string>, s2: map<string, string>)
    requires !Truthy(p.groupId)
    ensures ResolveInitialValue(p, items, query, s1) == ResolveInitialValue(p, items, query, s2)
  {
  }

  /** Outside query mode the URL has no influence. */
  lemma QueryIgnoredWhenOff(p: Props, items: seq<TabItem>, q1: map<string, string>,
                            q2: map<string, string>, storage: map<string, string>)
    requires !QueryEnabled(p.queryString)
    ensures ResolveInitialValue(p, items, q1, storage) == ResolveInitialValue(p, items, q2, storage)
  {
  }
}
