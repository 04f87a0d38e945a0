/**
 * The record a `TabItem` child contributes to its `Tabs` container, and the
 * list queries the container runs over the children (`some`, `find`, `filter`).
 */
module TabItems {
  import opened Wrappers

  /**
   * The props of one `TabItem`. `isDefault` and `hidden` are the truthiness of
   * the optional boolean props `default` and `hidden`; `attrClassName` is the
   * `className` entry of the `attributes` record (the rest of that record is
   * opaque); `className` is the item's own panel class name. Panel content is
   * an opaque payload and is not carried.
   */
  datatype TabItem = TabItem(
    value: string,
    tabLabel: Option<string>,
    isDefault: bool,
    hidden: bool,
    attrClassName: Option<string>,
    className: Option<string>)

  /** The text shown on the tab button: the `label` prop (`tabLabel` here) when defined, else the value. */
  function Label(item: TabItem): string {
    item.tabLabel.OrElse(item.value)
  }

  /** The `value` of every item, in order. */
  function Values(items: seq<TabItem>): (r: seq<string>)
    ensures |r| == |items|
    ensures forall k :: 0 <= k < |items| ==> r[k] == items[k].value
  {
    seq(|items|, k requires 0 <= k < |items| => items[k].value)
  }

  /** Some item has value `v`. */
  predicate HasValue(items: seq<TabItem>, v: string) {
    v in Values(items)
  }

  /** Values are unique within one container (the documented intent of `value`). */
  predicate UniqueValues(items: seq<TabItem>) {
    forall i, j :: 0 <= i < j < |items| ==> items[i].value != items[j].value
  }

  /**
   * The search for an item flagged `default`, as the index of the item found:
   * the first item flagged `default`, or `None` when no item is.
   */
  function FirstDefault(items: seq<TabItem>): (r: Option<nat>)
    ensures r.Some? ==> r.value < |items| && items[r.value].isDefault
    ensures r.Some? ==> forall j :: 0 <= j < r.value ==> !items[j].isDefault
    ensures r.None? <==> forall j :: 0 <= j < |items| ==> !items[j].isDefault
  {
    if items == [] then None
    else if items[0].isDefault then Some(0)
    else
      match FirstDefault(items[1..])
      case None => None
      case Some(k) => Some(k + 1)
  }

  /** The items not flagged `hidden`, in order: the items shown in the tab strip. */
  function Visible(items: seq<TabItem>): (r: seq<TabItem>)
    ensures |r| <= |items|
    ensures forall x :: x in r ==> x in items && !x.hidden
    ensures forall j :: 0 <= j < |items| && !items[j].hidden ==> items[j] in r
  {
    if items == [] then []
    else (if items[0].hidden then [] else [items[0]]) + Visible(items[1..])
  }

  /** `sub` is `s` with some elements left out and the rest kept in order. */
  predicate IsSubsequence<T(==)>(sub: seq<T>, s: seq<T>)
    decreases |s|
  {
    if sub == [] then true
    else if s == [] then false
    else if sub[0] == s[0] then IsSubsequence(sub[1..], s[1..])
    else IsSubsequence(sub, s[1..])
  }

  /** The number of hidden items. */
  function HiddenCount(items: seq<TabItem>): nat {
    if items == [] then 0 else (if items[0].hidden then 1 else 0) + HiddenCount(items[1..])
  }

  /** The tab strip keeps the non-hidden items in their original order, and only them. */
  lemma {:induction false} VisibleInOrder(items: seq<TabItem>)
    ensures IsSubsequence(Visible(items), items)
    ensures |Visible(items)| == |items| - HiddenCount(items)
  {
    if items != [] {
      VisibleInOrder(items[1..]);
      if !items[0].hidden {
        assert Visible(items)[0] == items[0];
        assert Visible(items)[1..] == Visible(items[1..]);
      } else {
        assert Visible(items) == Visible(items[1..]);
        SubsequenceOfTail(Visible(items[1..]), items);
      }
    }
  }

  /** A subsequence of the tail is a subsequence of the whole. */
  lemma {:induction false} SubsequenceOfTail<T>(sub: seq<T>, s: seq<T>)
    requires s != [] && IsSubsequence(sub, s[1..])
    ensures IsSubsequence(sub, s)
    decreases |s| + |sub|
  {
    if sub != [] && sub[0] == s[0] {
      SubsequenceDropHead(sub, s[1..]);
    }
  }

  /** Dropping the first element of a subsequence keeps it a subsequence. */
  lemma {:induction false} SubsequenceDropHead<T>(sub: seq<T>, s: seq<T>)
    requires sub != [] && IsSubsequence(sub, s)
    ensures IsSubsequence(sub[1..], s)
    decreases |s| + |sub|
  {
    assert s != [];
    if sub[0] == s[0] {
      SubsequenceOfTail(sub[1..], s);
    } else {
      SubsequenceDropHead(sub, s[1..]);
      SubsequenceOfTail(sub[1..], s);
    }
  }

  /** Unique values among all items stay unique among the visible ones. */
  lemma {:induction false} VisibleUnique(items: seq<TabItem>)
    requires UniqueValues(items)
    ensures UniqueValues(Visible(items))
  {
    if items != [] {
      VisibleUnique(items[1..]);
      if !items[0].hidden {
        var v := Visible(items);
        assert v == [items[0]] + Visible(items[1..]);
        forall i, j | 0 <= i < j < |v| ensures v[i].value != v[j].value {
          if i == 0 {
            assert v[j] in Visible(items[1..]);
          }
        }
      }
    }
  }
}
