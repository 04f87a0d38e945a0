/**
 * The stateful side of `Tabs`: each mounted container's `selectedValue`, the
 * page's session storage and URL query parameters, and the window's list of
 * group-change listeners. Selecting a tab updates the caller, persists the
 * value for its group, broadcasts a group-change event that every registered
 * container of the same group adopts, and in query mode rewrites the URL
 * parameter in place.
 */
module TabsSync {
  import opened Wrappers
  import opened TabItems
  import opened TabsConfig
  import opened TabsResolve
  import opened TabsKeyboard

  /** The `storybook-tabs:group-change` event's detail. */
  datatype GroupChange = GroupChange(groupId: string, value: string)

  /** One mounted `Tabs` container: its props and items are fixed, its selection is state. */
  class TabsInstance {
    const props: Props
    const items: seq<TabItem>
    var selectedValue: string

    constructor (props: Props, items: seq<TabItem>, initial: string)
      ensures this.props == props && this.items == items && selectedValue == initial
    {
      this.props := props;
      this.items := items;
      selectedValue := initial;
    }

    /** The group-change handler: adopt the event's value when its group is this container's own. */
    method OnGroupChange(e: GroupChange)
      modifies this
      ensures selectedValue == if props.groupId == Some(e.groupId) then e.value else old(selectedValue)
    {
      if props.groupId == Some(e.groupId) {
        selectedValue := e.value;
      }
    }
  }

  /** The page hosting the containers: session storage, the URL's query parameters and the listener registry. */
  class Page {
    var storage: map<string, string>
    var query: map<string, string>
    var listeners: seq<TabsInstance>

    /** Only containers with a truthy group id ever register a listener. */
    ghost predicate Valid()
      reads this
    {
      forall l :: l in listeners ==> Truthy(l.props.groupId)
    }

    constructor (query: map<string, string>, storage: map<string, string>)
      ensures Valid()
      ensures this.query == query && this.storage == storage && listeners == []
    {
      this.query := query;
      this.storage := storage;
      listeners := [];
    }

    /**
     * Mount a container: its selection starts at `resolveInitialValue` over the
     * current URL and storage, and with a truthy group id its handler is added
     * to the end of the registry.
     */
    method Mount(props: Props, items: seq<TabItem>) returns (t: TabsInstance)
      requires Valid()
      modifies this
      ensures Valid() && fresh(t)
      ensures t.props == props && t.items == items
      ensures t.selectedValue == ResolveInitialValue(props, items, query, storage)
      ensures listeners == old(listeners) + (if Truthy(props.groupId) then [t] else [])
      ensures t in listeners <==> Truthy(props.groupId)
      ensures query == old(query) && storage == old(storage)
    {
      t := new TabsInstance(props, items, ResolveInitialValue(props, items, query, storage));
      if Truthy(props.groupId) {
        listeners := listeners + [t];
      }
    }

    /** Unmount a container: `removeEventListener` drops its handler and keeps the others in order. */
    method Unmount(t: TabsInstance)
      requires Valid()
      modifies this
      ensures Valid()
      ensures listeners == Without(old(listeners), t)
      ensures query == old(query) && storage == old(storage)
    {
      listeners := Without(listeners, t);
    }

    /**
     * `window.dispatchEvent`: run every registered handler, in registration
     * order, on the event.
     */
    method Dispatch(e: GroupChange)
      modifies set l | l in listeners
      ensures forall l :: l in listeners ==>
                l.selectedValue == if l.props.groupId == Some(e.groupId) then e.value else old(l.selectedValue)
    {
      var i := 0;
      while i < |listeners|
        invariant 0 <= i <= |listeners|
        invariant forall l :: l in listeners ==>
                    l.selectedValue == if l.props.groupId == Some(e.groupId) && l in listeners[..i]
                                       then e.value else old(l.selectedValue)
      {
        listeners[i].OnGroupChange(e);
        assert listeners[..i + 1] == listeners[..i] + [listeners[i]];
        i := i + 1;
      }
      assert listeners[..i] == listeners;
    }

    /**
     * `handleSelect(v)` in container `t`: `t` selects `v`; with a truthy group
     * id the value is stored under the group's key and every registered
     * container of that group adopts it, whether or not `v` is one of its own
     * items; in query mode the resolved parameter is set to `v`, the other
     * parameters kept.
     */
    method Select(t: TabsInstance, v: string)
      requires Valid()
      modifies this, t, set l | l in listeners
      ensures Valid() && listeners == old(listeners)
      ensures t.selectedValue == v
      ensures !Truthy(t.props.groupId) ==> t !in listeners
      ensures !Truthy(t.props.groupId) ==> forall l :: l in listeners ==> l.selectedValue == old(l.selectedValue)
      ensures forall l :: l in listeners && l != t ==>
                l.selectedValue == if Truthy(t.props.groupId) && l.props.groupId == t.props.groupId
                                   then v else old(l.selectedValue)
      ensures storage == if Truthy(t.props.groupId)
                         then old(storage)[StorageKey(t.props.groupId.value) := v] else old(storage)
      ensures query == if QueryEnabled(t.props.queryString)
                       then old(query)[ParamName(t.props.queryString, t.props.groupId) := v] else old(query)
    {
      t.selectedValue := v;
      if Truthy(t.props.groupId) {
        storage := storage[StorageKey(t.props.groupId.value) := v];
        Dispatch(GroupChange(t.props.groupId.value, v));
      }
      if QueryEnabled(t.props.queryString) {
        query := query[ParamName(t.props.queryString, t.props.groupId) := v];
      }
    }

    /**
     * `handleKeyDown` on the button at position `current` of `t`'s visible
     * items: a navigation key prevents the default action and selects the
     * visible item at the next index; any other key changes nothing.
     */
    method KeyDown(t: TabsInstance, key: string, current: int) returns (prevented: bool)
      requires Valid()
      requires 0 <= current < |Visible(t.items)|
      modifies this, t, set l | l in listeners
      ensures Valid() && listeners == old(listeners)
      ensures prevented <==> IsNavigationKey(key)
      ensures !prevented ==> t.selectedValue == old(t.selectedValue) && storage == old(storage) && query == old(query)
      ensures !prevented ==> forall l :: l in listeners ==> l.selectedValue == old(l.selectedValue)
      ensures prevented ==>
                var v := Visible(t.items)[NextIndex(key, current, |Visible(t.items)|).value].value;
                && t.selectedValue == v
                && (forall l :: l in listeners && l != t ==>
                      l.selectedValue == if Truthy(t.props.groupId) && l.props.groupId == t.props.groupId
                                         then v else old(l.selectedValue))
                && storage == (if Truthy(t.props.groupId)
                               then old(storage)[StorageKey(t.props.groupId.value) := v] else old(storage))
                && query == (if QueryEnabled(t.props.queryString)
                             then old(query)[ParamName(t.props.queryString, t.props.groupId) := v] else old(query))
    {
      var visible := Visible(t.items);
      var next := NextIndex(key, current, |visible|);
      prevented := next.Some?;
      if prevented {
        Select(t, visible[next.value].value);
      }
    }
  }

  /** `s` without any occurrence of `x`, the rest in order. */
  function Without<T(==)>(s: seq<T>, x: T): (r: seq<T>)
    ensures x !in r
    ensures forall y :: y in s && y != x ==> y in r
    ensures forall y :: y in r ==> y in s
  {
    if s == [] then []
    else (if s[0] == x then [] else [s[0]]) + Without(s[1..], x)
  }

  /** Removing one handler keeps the registration order of the others. */
  lemma {:induction false} WithoutInOrder<T>(s: seq<T>, x: T)
    ensures IsSubsequence(Without(s, x), s)
  {
    if s != [] {
      WithoutInOrder(s[1..], x);
      if s[0] != x {
        assert Without(s, x)[0] == s[0];
        assert Without(s, x)[1..] == Without(s[1..], x);
      } else {
        assert Without(s, x) == Without(s[1..], x);
        SubsequenceOfTail(Without(s[1..], x), s);
      }
    }
  }
}
