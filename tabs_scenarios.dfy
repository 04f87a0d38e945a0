/**
 * Whole-page behaviours of `Tabs` derived from the contracts of `Page` and
 * `TabsInstance` alone, on configurations like the ones the stories render.
 */
module TabsScenarios {
  import opened Wrappers
  import opened TabItems
  import opened TabsConfig
  import opened TabsResolve
  import opened TabsSync

  /** A plain item: no label, no flags, no class names. */
  function Item(value: string): TabItem {
    TabItem(value, None, false, false, None, None)
  }

  function PackageManagers(): seq<TabItem> {
    [Item("npm"), Item("yarn"), Item("pnpm")]
  }

  function Grouped(groupId: string): Props {
    Props(None, Some(groupId), QueryFlag(false), false, "")
  }

  /**
   * Two mounted containers of one group: selecting in the first updates the
   * second in the same step and persists the value; an ungrouped container
   * keeps its selection.
   */
  method SyncedPair() returns (first: string, second: string, ungrouped: string, stored: Option<string>)
    ensures first == "pnpm" && second == "pnpm"
    ensures ungrouped == "npm"
    ensures stored == Some("pnpm")
  {
    var page := new Page(map[], map[]);
    var a := page.Mount(Grouped("pkg-mgr-demo"), PackageManagers());
    var b := page.Mount(Grouped("pkg-mgr-demo"), PackageManagers());
    var c := page.Mount(Props(None, None, QueryFlag(false), false, ""), PackageManagers());
    assert c.selectedValue == "npm";
    page.Select(a, "pnpm");
    first, second, ungrouped := a.selectedValue, b.selectedValue, c.selectedValue;
    stored := Lookup(page.storage, StorageKey("pkg-mgr-demo"));
  }

  /** A selection persisted by one container is the initial selection of the next one mounted in its group. */
  method PersistThenMount() returns (initial: string)
    ensures initial == "yarn"
  {
    var page := new Page(map[], map[]);
    var a := page.Mount(Grouped("pkg-mgr-demo"), PackageManagers());
    page.Select(a, "yarn");
    page.Unmount(a);
    assert HasValue(PackageManagers(), "yarn") by {
      assert Values(PackageManagers())[1] == "yarn";
    }
    var b := page.Mount(Grouped("pkg-mgr-demo"), PackageManagers());
    initial := b.selectedValue;
  }

  /**
   * A sibling of the same group whose items lack the broadcast value adopts it
   * anyway, and then has no item with the selected value.
   */
  method MismatchedSibling() returns (adopted: string, ownItem: bool)
    ensures adopted == "pnpm" && !ownItem
  {
    var page := new Page(map[], map[]);
    var a := page.Mount(Grouped("pkg-mgr-demo"), PackageManagers());
    var b := page.Mount(Grouped("pkg-mgr-demo"), [Item("npm"), Item("yarn")]);
    page.Select(a, "pnpm");
    adopted := b.selectedValue;
    ownItem := HasValue(b.items, adopted);
  }

  /**
   * Query mode: `?tab=banana` overrides an item flagged `default`; selecting
   * another tab rewrites only that parameter.
   */
  method QueryDeepLink() returns (initial: string, tabParam: Option<string>, otherParam: Option<string>)
    ensures initial == "banana"
    ensures tabParam == Some("apple")
    ensures otherParam == Some("docs")
  {
    var fruit := [Item("apple"), TabItem("orange", Some("Orange"), true, false, None, None), Item("banana")];
    var page := new Page(map["tab" := "banana", "path" := "docs"], map[]);
    assert HasValue(fruit, "banana") by {
      assert Values(fruit)[2] == "banana";
    }
    var t := page.Mount(Props(None, None, QueryFlag(true), false, ""), fruit);
    initial := t.selectedValue;
    page.Select(t, "apple");
    tabParam := Lookup(page.query, "tab");
    otherParam := Lookup(page.query, "path");
  }

  /** Keyboard navigation skips a hidden tab: ArrowRight on the first of `a`, hidden `b`, `c` selects `c`. */
  method HiddenTabSkipped() returns (prevented: bool, selected: string)
    ensures prevented && selected == "c"
  {
    var items := [Item("a"), TabItem("b", None, false, true, None, None), Item("c")];
    assert Visible(items) == [Item("a"), Item("c")] by {
      assert Visible(items[2..]) == [Item("c")];
      assert Visible(items[1..]) == [Item("c")];
    }
    var page := new Page(map[], map[]);
    var t := page.Mount(Props(None, None, QueryFlag(false), false, ""), items);
    prevented := page.KeyDown(t, "ArrowRight", 0);
    selected := t.selectedValue;
  }

  /**
   * An empty group id is falsy: neither container registers, nothing is
   * stored, and the sibling keeps its selection.
   */
  method EmptyGroupIdIsolated() returns (sibling: string, stored: Option<string>)
    ensures sibling == "npm" && stored == None
  {
    var page := new Page(map[], map[]);
    var a := page.Mount(Grouped(""), PackageManagers());
    var b := page.Mount(Grouped(""), PackageManagers());
    page.Select(a, "yarn");
    sibling := b.selectedValue;
    stored := Lookup(page.storage, StorageKey(""));
  }

  /**
   * Focus stays on the pressed button: ArrowRight twice on the first of `a`,
   * `b`, `c` selects `b` both times; only a press on `b`'s button, once the
   * user has moved focus there, goes on to `c`.
   */
  method SecondArrowRightOnSameButton() returns (afterOne: string, afterTwo: string, fromMoved: string)
    ensures afterOne == "b" && afterTwo == "b" && fromMoved == "c"
  {
    var items := [Item("a"), Item("b"), Item("c")];
    assert Visible(items) == items by {
      assert Visible(items[2..]) == [Item("c")];
      assert Visible(items[1..]) == [Item("b"), Item("c")];
    }
    var page := new Page(map[], map[]);
    var t := page.Mount(Props(None, None, QueryFlag(false), false, ""), items);
    var _ := page.KeyDown(t, "ArrowRight", 0);
    afterOne := t.selectedValue;
    var _ := page.KeyDown(t, "ArrowRight", 0);
    afterTwo := t.selectedValue;
    var _ := page.KeyDown(t, "ArrowRight", 1);
    fromMoved := t.selectedValue;
  }
}
