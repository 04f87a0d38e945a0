/**
 * What a `Tabs` container renders for a given selection: the wrapper's class,
 * the tab strip (one button per visible item) and the panels (every item in
 * eager mode, only the selected one in lazy mode), with the generated ids that
 * tie each button to its panel.
 */
module TabsRender {
  import opened Wrappers
  import opened TabItems
  import opened TabsConfig

  const TabIdPrefix := "storybook-tabs-tab-"
  const PanelIdPrefix := "storybook-tabs-panel-"

  /** A tab button's id: the tab prefix, the id group, a dash, the value. */
  function TabId(groupId: Option<string>, value: string): string {
    TabIdPrefix + IdGroup(groupId) + "-" + value
  }

  /** A panel's id: the panel prefix, the id group, a dash, the value. */
  function PanelId(groupId: Option<string>, value: string): string {
    PanelIdPrefix + IdGroup(groupId) + "-" + value
  }

  /** Within one container, distinct values get distinct button ids and distinct panel ids. */
  lemma IdsInjective(groupId: Option<string>, v1: string, v2: string)
    ensures TabId(groupId, v1) == TabId(groupId, v2) ==> v1 == v2
    ensures PanelId(groupId, v1) == PanelId(groupId, v2) ==> v1 == v2
  {
    var n := |TabIdPrefix + IdGroup(groupId) + "-"|;
    if TabId(groupId, v1) == TabId(groupId, v2) {
      assert v1 == TabId(groupId, v1)[n..];
    }
    var m := |PanelIdPrefix + IdGroup(groupId) + "-"|;
    if PanelId(groupId, v1) == PanelId(groupId, v2) {
      assert v1 == PanelId(groupId, v1)[m..];
    }
  }

  /** No button id is ever a panel id. */
  lemma TabIdIsNotPanelId(g1: Option<string>, v1: string, g2: Option<string>, v2: string)
    ensures TabId(g1, v1) != PanelId(g2, v2)
  {
    assert TabId(g1, v1)[15] == 't';
    assert PanelId(g2, v2)[15] == 'p';
  }

  /** Class names joined by single spaces, as in a `class` attribute. */
  function JoinClasses(tokens: seq<string>): string {
    if tokens == [] then ""
    else if |tokens| == 1 then tokens[0]
    else tokens[0] + " " + JoinClasses(tokens[1..])
  }

  /** The wrapper's class attribute: the base class, then a space and the `className` prop when it is non-empty. */
  function WrapperClass(className: string): string {
    "storybook-tabs" + (if className != "" then " " + className else "")
  }

  /** The wrapper's classes: the base class, then the `className` prop when it is non-empty. */
  function WrapperClasses(className: string): seq<string> {
    ["storybook-tabs"] + (if className != "" then [className] else [])
  }

  /** The template string is the space-joined class list. */
  lemma WrapperClassIsJoin(className: string)
    ensures WrapperClass(className) == JoinClasses(WrapperClasses(className))
  {
  }

  const TabClass := "storybook-tabs__tab"
  const TabSelectedClass := "storybook-tabs__tab--selected"

  /**
   * A button's class attribute: the base class, then the selected modifier
   * when selected, then the item's `attributes.className` when truthy, each
   * added after a space.
   */
  function ButtonClass(isSelected: bool, attrClassName: Option<string>): string {
    TabClass + (if isSelected then " " + TabSelectedClass else "")
      + (if Truthy(attrClassName) then " " + attrClassName.value else "")
  }

  /** A button's classes: base, the selected modifier when selected, the item's `attributes.className` when truthy. */
  function ButtonClasses(isSelected: bool, attrClassName: Option<string>): (r: seq<string>)
    ensures TabClass in r
    ensures isSelected ==> TabSelectedClass in r
    ensures !isSelected && (attrClassName.Some? ==> attrClassName.value != TabSelectedClass) ==> TabSelectedClass !in r
    ensures Truthy(attrClassName) ==> attrClassName.value in r
  {
    [TabClass] + (if isSelected then [TabSelectedClass] else [])
      + (if Truthy(attrClassName) then [attrClassName.value] else [])
  }

  /** The template string is the space-joined class list: the item's class is appended, never overwritten. */
  lemma {:induction false} ButtonClassIsJoin(isSelected: bool, attrClassName: Option<string>)
    ensures ButtonClass(isSelected, attrClassName) == JoinClasses(ButtonClasses(isSelected, attrClassName))
  {
    var ts := ButtonClasses(isSelected, attrClassName);
    if Truthy(attrClassName) {
      var a := attrClassName.value;
      assert JoinClasses([a]) == a;
      if isSelected {
        assert ts[1..] == [TabSelectedClass, a] && ts[1..][1..] == [a];
        assert JoinClasses(ts[1..]) == TabSelectedClass + " " + a;
      } else {
        assert ts[1..] == [a];
      }
    } else if isSelected {
      assert ts[1..] == [TabSelectedClass];
    }
  }

  const PanelClassBase := "storybook-tabs__panel"
  const PanelActiveClass := "storybook-tabs__panel--active"

  /**
   * A panel's class as the container writes it: base plus the active modifier
   * (the item's own `className` prop is not used).
   */
  function PanelClassAsWritten(isActive: bool): string {
    PanelClassBase + (if isActive then " " + PanelActiveClass else "")
  }

  /** A panel's class with the item's documented `className` appended when truthy. */
  function PanelClass(isActive: bool, itemClassName: Option<string>): string {
    PanelClassAsWritten(isActive) + (if Truthy(itemClassName) then " " + itemClassName.value else "")
  }

  /** A panel's classes: base, the active modifier when active, the item's `className` when truthy. */
  function PanelClasses(isActive: bool, itemClassName: Option<string>): (r: seq<string>)
    ensures PanelClassBase in r
    ensures isActive ==> PanelActiveClass in r
    ensures Truthy(itemClassName) ==> itemClassName.value in r
  {
    [PanelClassBase] + (if isActive then [PanelActiveClass] else [])
      + (if Truthy(itemClassName) then [itemClassName.value] else [])
  }

  /** The corrected panel class is the space-joined class list, item class included. */
  lemma {:induction false} PanelClassIsJoin(isActive: bool, itemClassName: Option<string>)
    ensures PanelClass(isActive, itemClassName) == JoinClasses(PanelClasses(isActive, itemClassName))
  {
    var ts := PanelClasses(isActive, itemClassName);
    if Truthy(itemClassName) {
      var c := itemClassName.value;
      assert JoinClasses([c]) == c;
      if isActive {
        assert ts[1..] == [PanelActiveClass, c] && ts[1..][1..] == [c];
        assert JoinClasses(ts[1..]) == PanelActiveClass + " " + c;
      } else {
        assert ts[1..] == [c];
      }
    } else if isActive {
      assert ts[1..] == [PanelActiveClass];
    }
  }

  /**
   * As written, a panel is rendered as if its item had no `className`: an item
   * class such as "wide" never becomes one of the panel's classes, while the
   * corrected class list carries it.
   */
  lemma PanelClassAsWrittenIgnoresItemClass(isActive: bool)
    ensures PanelClassAsWritten(isActive) == JoinClasses(PanelClasses(isActive, None))
    ensures "wide" !in PanelClasses(isActive, None)
    ensures "wide" in PanelClasses(isActive, Some("wide"))
    ensures PanelClass(isActive, Some("wide")) == PanelClassAsWritten(isActive) + " wide"
  {
  }

  /** One rendered tab button. */
  datatype Button = Button(
    value: string,
    id: string,
    controls: string,
    tabIndex: int,
    selected: bool,
    className: string,
    text: string)

  /** One rendered tab panel; `hidden` is the `hidden` attribute (never set in lazy mode). */
  datatype Panel = Panel(
    value: string,
    id: string,
    labelledBy: string,
    className: string,
    hidden: bool)

  /** The button rendered for `item` under the current selection. */
  function TabButton(item: TabItem, selectedValue: string, groupId: Option<string>): (b: Button)
    ensures b.value == item.value && b.text == Label(item)
    ensures b.selected <==> item.value == selectedValue
    ensures b.tabIndex == (if item.value == selectedValue then 0 else -1)
    ensures b.id == TabId(groupId, item.value) && b.controls == PanelId(groupId, item.value)
    ensures b.className == JoinClasses(ButtonClasses(item.value == selectedValue, item.attrClassName))
  {
    var isSelected := item.value == selectedValue;
    ButtonClassIsJoin(isSelected, item.attrClassName);
    Button(item.value, TabId(groupId, item.value), PanelId(groupId, item.value),
           if isSelected then 0 else -1, isSelected,
           ButtonClass(isSelected, item.attrClassName), Label(item))
  }

  /** The tab strip: one button per visible item, in order. */
  function TabStrip(items: seq<TabItem>, selectedValue: string, groupId: Option<string>): (r: seq<Button>)
    ensures |r| == |Visible(items)|
    ensures forall k :: 0 <= k < |r| ==> r[k] == TabButton(Visible(items)[k], selectedValue, groupId)
  {
    var vis := Visible(items);
    seq(|vis|, k requires 0 <= k < |vis| => TabButton(vis[k], selectedValue, groupId))
  }

  /**
   * The eager-mode panel of `item`: always present, `hidden` unless selected;
   * its classes are the base and, when selected, the active modifier (the
   * item's own `className` is not applied).
   */
  function EagerPanel(item: TabItem, selectedValue: string, groupId: Option<string>): (p: Panel)
    ensures p.value == item.value && p.hidden == (item.value != selectedValue)
    ensures p.id == PanelId(groupId, item.value) && p.labelledBy == TabId(groupId, item.value)
    ensures p.className == JoinClasses(PanelClasses(item.value == selectedValue, None))
  {
    var isActive := item.value == selectedValue;
    PanelClassAsWrittenIgnoresItemClass(isActive);
    Panel(item.value, PanelId(groupId, item.value), TabId(groupId, item.value),
          PanelClassAsWritten(isActive), !isActive)
  }

  /**
   * The lazy-mode panel of the selected item: never `hidden`; its classes are
   * the base and the active modifier (the item's own `className` is not applied).
   */
  function LazyPanel(item: TabItem, groupId: Option<string>): (p: Panel)
    ensures p.value == item.value && !p.hidden
    ensures p.id == PanelId(groupId, item.value) && p.labelledBy == TabId(groupId, item.value)
    ensures p.className == JoinClasses(PanelClasses(true, None))
  {
    PanelClassAsWrittenIgnoresItemClass(true);
    Panel(item.value, PanelId(groupId, item.value), TabId(groupId, item.value),
          PanelClassAsWritten(true), false)
  }

  /** Eager mode: a panel for every item, hidden ones included. */
  function EagerPanels(items: seq<TabItem>, selectedValue: string, groupId: Option<string>): (r: seq<Panel>)
    ensures |r| == |items|
    ensures forall k :: 0 <= k < |r| ==> r[k] == EagerPanel(items[k], selectedValue, groupId)
  {
    seq(|items|, k requires 0 <= k < |items| => EagerPanel(items[k], selectedValue, groupId))
  }

  /** Lazy mode: only the items whose value is the selection get a panel. */
  function LazyPanels(items: seq<TabItem>, selectedValue: string, groupId: Option<string>): (r: seq<Panel>)
    ensures |r| <= |items|
    ensures forall p :: p in r ==> p.value == selectedValue && !p.hidden
    ensures HasValue(items, selectedValue) <==> r != []
  {
    if items == [] then []
    else
      var here := if items[0].value == selectedValue then [LazyPanel(items[0], groupId)] else [];
      here + LazyPanels(items[1..], selectedValue, groupId)
  }

  /** The panel list for the rendering mode. */
  function Panels(lazy: bool, items: seq<TabItem>, selectedValue: string, groupId: Option<string>): (r: seq<Panel>)
    ensures !lazy ==> |r| == |items|
    ensures !lazy ==> forall k :: 0 <= k < |r| ==>
                        r[k].value == items[k].value && (r[k].hidden <==> items[k].value != selectedValue)
    ensures lazy ==> forall p :: p in r ==> p.value == selectedValue && !p.hidden
    ensures lazy ==> (r != [] <==> HasValue(items, selectedValue))
    ensures lazy ==> r == LazyPanels(items, selectedValue, groupId)
    ensures !lazy ==> r == EagerPanels(items, selectedValue, groupId)
  {
    if lazy then LazyPanels(items, selectedValue, groupId) else EagerPanels(items, selectedValue, groupId)
  }

  /**
   * Focus and selection agree: a button has tab index 0 and `aria-selected`
   * exactly when its value is the selection, and tab index -1 otherwise.
   */
  lemma StripSelection(items: seq<TabItem>, selectedValue: string, groupId: Option<string>, k: int)
    requires 0 <= k < |TabStrip(items, selectedValue, groupId)|
    ensures var b := TabStrip(items, selectedValue, groupId)[k];
            (b.tabIndex == 0 <==> b.selected) && (b.tabIndex == -1 <==> !b.selected)
            && (b.selected <==> Visible(items)[k].value == selectedValue)
  {
  }

  /** With unique values, at most one button is selected. */
  lemma AtMostOneSelected(items: seq<TabItem>, selectedValue: string, groupId: Option<string>, i: int, j: int)
    requires UniqueValues(items)
    requires 0 <= i < j < |TabStrip(items, selectedValue, groupId)|
    ensures !(TabStrip(items, selectedValue, groupId)[i].selected && TabStrip(items, selectedValue, groupId)[j].selected)
  {
    VisibleUnique(items);
  }

  /** Every button's `aria-controls` names a panel in eager mode, and that panel's `aria-labelledby` names the button. */
  lemma EagerCrossReference(items: seq<TabItem>, selectedValue: string, groupId: Option<string>, k: int)
    requires 0 <= k < |TabStrip(items, selectedValue, groupId)|
    ensures var b := TabStrip(items, selectedValue, groupId)[k];
            exists p :: p in EagerPanels(items, selectedValue, groupId)
                        && p.id == b.controls && p.labelledBy == b.id && (p.hidden <==> !b.selected)
  {
    var b := TabStrip(items, selectedValue, groupId)[k];
    var item := Visible(items)[k];
    assert item in items;
    var j :| 0 <= j < |items| && items[j] == item;
    assert EagerPanels(items, selectedValue, groupId)[j].id == b.controls;
  }

  /** In lazy mode the selected button's `aria-controls` names the one rendered panel, which points back. */
  lemma LazyCrossReference(items: seq<TabItem>, selectedValue: string, groupId: Option<string>, k: int)
    requires 0 <= k < |TabStrip(items, selectedValue, groupId)|
    requires TabStrip(items, selectedValue, groupId)[k].selected
    ensures var b := TabStrip(items, selectedValue, groupId)[k];
            exists p :: p in LazyPanels(items, selectedValue, groupId)
                        && p.id == b.controls && p.labelledBy == b.id
  {
    var item := Visible(items)[k];
    assert item in items;
    LazyPanelsFor(items, selectedValue, groupId, item);
  }

  /** The lazy panel of an item carrying the selected value is rendered. */
  lemma {:induction false} LazyPanelsFor(items: seq<TabItem>, selectedValue: string, groupId: Option<string>, item: TabItem)
    requires item in items && item.value == selectedValue
    ensures LazyPanel(item, groupId) in LazyPanels(items, selectedValue, groupId)
  {
    if items[0] != item {
      LazyPanelsFor(items[1..], selectedValue, groupId, item);
    }
  }

  /** With unique values, lazy mode renders exactly one panel when the selection names an item, none otherwise. */
  lemma {:induction false} LazySinglePanel(items: seq<TabItem>, selectedValue: string, groupId: Option<string>)
    requires UniqueValues(items)
    ensures |LazyPanels(items, selectedValue, groupId)| == (if HasValue(items, selectedValue) then 1 else 0)
  {
    if items != [] {
      LazySinglePanel(items[1..], selectedValue, groupId);
      if items[0].value == selectedValue {
        assert !HasValue(items[1..], selectedValue);
      } else {
        assert HasValue(items, selectedValue) == HasValue(items[1..], selectedValue) by {
          assert Values(items) == [items[0].value] + Values(items[1..]);
        }
      }
    }
  }

  /**
   * A hidden item selected from outside the strip (a URL or stored value, or a
   * group broadcast) has no selected button, yet in eager mode its panel is
   * the one shown.
   */
  lemma HiddenSelectionShownWithoutButton(items: seq<TabItem>, groupId: Option<string>, j: int)
    requires UniqueValues(items)
    requires 0 <= j < |items| && items[j].hidden
    ensures forall b :: b in TabStrip(items, items[j].value, groupId) ==> !b.selected
    ensures !EagerPanels(items, items[j].value, groupId)[j].hidden
  {
  }
}
