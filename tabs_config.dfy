/**
 * The props of a `Tabs` container and the names it derives from them, with
 * JavaScript's truthiness written out: an optional string is `None` when the
 * prop is `undefined`, and `""` is falsy wherever the source tests a value
 * with `if (x)` or `x &&`, while `x ?? d` replaces only `undefined`.
 */
module TabsConfig {
  import opened Wrappers

  /** `queryString?: boolean | string`, `false` when omitted. */
  datatype QueryString = QueryFlag(on: bool) | QueryName(name: string)

  /** The container's configuration. */
  datatype Props = Props(
    defaultValue: Option<string>,
    groupId: Option<string>,
    queryString: QueryString,
    lazy: bool,
    className: string)

  /** Key prefix of the session-storage entry that persists a group's selection. */
  const StorageKeyPrefix := "storybook-tabs:group:"

  /** Truthiness of an optional string: defined and not empty. */
  predicate Truthy(s: Option<string>) {
    s.Some? && s.value != ""
  }

  /** `if (queryString)`: `true`, or a non-empty parameter name. */
  predicate QueryEnabled(q: QueryString) {
    match q
    case QueryFlag(on) => on
    case QueryName(name) => name != ""
  }

  /** The query parameter's name: a string `queryString` itself, else the group id when defined, else "tab". */
  function ParamName(q: QueryString, groupId: Option<string>): (r: string)
    ensures q.QueryName? ==> r == q.name
    ensures q.QueryFlag? && groupId.Some? ==> r == groupId.value
    ensures q.QueryFlag? && groupId.None? ==> r == "tab"
  {
    match q
    case QueryName(name) => name
    case QueryFlag(_) => groupId.OrElse("tab")
  }

  /** The session-storage key of a group: the prefix followed by the group id. */
  function StorageKey(groupId: string): (r: string)
    ensures |r| == |StorageKeyPrefix| + |groupId|
    ensures r[..|StorageKeyPrefix|] == StorageKeyPrefix && r[|StorageKeyPrefix|..] == groupId
  {
    StorageKeyPrefix + groupId
  }

  /** Distinct groups persist under distinct storage keys. */
  lemma StorageKeyInjective(g1: string, g2: string)
    requires StorageKey(g1) == StorageKey(g2)
    ensures g1 == g2
  {
  }

  /** The group part of every generated element id: the group id when defined (even empty), else "default". */
  function IdGroup(groupId: Option<string>): string {
    groupId.OrElse("default")
  }
}
