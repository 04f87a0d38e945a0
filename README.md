# Tabs container of storybook-addon-tabs, modelled in Dafny

The package provides a `Tabs` container and `TabItem` children for Storybook
docs, with the API of Docusaurus tabs. This project models the container's
decision logic:

- how it picks its initial selection;
- how a selection spreads to its group, to session storage and to the URL;
- how the arrow, Home and End keys move between visible tabs;
- what it renders for a given selection.

The browser is replaced by plain values. The URL's query parameters and
`sessionStorage` are `map<string, string>` fields of a `Page`. The window's
event-listener list is a `seq` of mounted `TabsInstance` objects.

JavaScript truthiness is written out. An optional prop is `None` when it is
`undefined`. `""` counts as absent wherever the code tests `x &&` or
`if (x)`. `x ?? d` replaces only `undefined`. So `groupId = ""` turns off
storage and sync, but still yields the query parameter name `""` and ids like
`storybook-tabs-tab--npm`.

Modules, one file each:

- `Wrappers` (`wrappers.dfy`): `Option` and map lookup.
- `TabItems` (`tab_items.dfy`): the item record from `TabItem.tsx`, plus the `some`, `find` and `filter` queries.
- `TabsConfig` (`tabs_config.dfy`): the props, truthiness, the query parameter name and the storage key.
- `TabsResolve` (`tabs_resolve.dfy`): `resolveInitialValue` and its precedence rules.
- `TabsKeyboard` (`tabs_keyboard.dfy`): the index arithmetic of `handleKeyDown`.
- `TabsRender` (`tabs_render.dfy`): ids, class names, the tab strip and the panels.
- `TabsSync` (`tabs_sync.dfy`): the `Page` and `TabsInstance` classes, with mount, unmount, select, key-down and event dispatch.
- `TabsScenarios` (`tabs_scenarios.dfy`): whole-page behaviours derived from those contracts alone.

Facts about the code that the model keeps:

- If several items are flagged `default`, the first one wins.
- Storage is consulted only when `groupId` is truthy.
- Element ids have the form `storybook-tabs-tab-<group>-<value>` and `storybook-tabs-panel-<group>-<value>`.
- A selection need not be one of the container's own items: a group broadcast is adopted unchecked; see `MismatchedSibling`.
- The key handler sits on a rendered button, so it always runs with at least one visible tab. `NextIndex` therefore requires `0 <= current < count`.
- The key handler works from the index of the button that received the key and does not move focus. A second ArrowRight on the same button selects the same tab again; see `SecondArrowRightOnSameButton`.

## Model

| member | source | states |
|---|---|---|
| `Wrappers.Lookup` | packages/plugin/src/Tabs.tsx:60-63 | reading a parameter gives a value exactly when the name is present, and then the stored string |
| `TabItems.FirstDefault` | packages/plugin/src/Tabs.tsx:145-146 | the index found is flagged `default` and no earlier item is; none is found exactly when no item is flagged |
| `TabItems.Visible` | packages/plugin/src/Tabs.tsx:215 | the strip holds only non-hidden items taken from the list, and every non-hidden item appears in it |
| `TabItems.VisibleInOrder` | packages/plugin/src/Tabs.tsx:215 | the strip is a subsequence of the items (original order) and its length is the number of non-hidden items |
| `TabItems.VisibleUnique` | packages/plugin/src/Tabs.tsx:215 | unique values among all items stay unique in the strip |
| `TabsConfig.ParamName` | packages/plugin/src/Tabs.tsx:123-124 | a string `queryString` names the parameter itself; otherwise the group id, even `""`, and `"tab"` only for an undefined group |
| `TabsConfig.StorageKey` | packages/plugin/src/Tabs.tsx:133 | the key is the prefix `storybook-tabs:group:` followed by the group id |
| `TabsConfig.StorageKeyInjective` | packages/plugin/src/Tabs.tsx:174 | distinct groups persist under distinct keys |
| `TabsResolve.FallbackValue` | packages/plugin/src/Tabs.tsx:144-149 | with items, the fallback is one of their values; with none, `""` |
| `TabsResolve.ResolveInitialValue` | packages/plugin/src/Tabs.tsx:120-150 | the initial selection is some item's value when there are items, and `""` when there are none |
| `TabsResolve.QueryParamWins` | packages/plugin/src/Tabs.tsx:122-129 | in query mode a non-empty parameter value naming an item is the selection, whatever storage, `defaultValue` and flags say |
| `TabsResolve.StoredValueWins` | packages/plugin/src/Tabs.tsx:131-137 | failing that, a non-empty stored value naming an item under a truthy group id is the selection |
| `TabsResolve.DefaultValueWins` | packages/plugin/src/Tabs.tsx:139-142 | failing both, a non-empty `defaultValue` naming an item is the selection |
| `TabsResolve.FallbackOrder` | packages/plugin/src/Tabs.tsx:144-146 | failing all three, the first item flagged `default` is the selection |
| `TabsResolve.FirstItemFallback` | packages/plugin/src/Tabs.tsx:148-149 | with no candidate accepted and no flagged item, the first item is the selection |
| `TabsResolve.EmptyOnlyWithoutItems` | packages/plugin/src/Tabs.tsx:149 | if no value is `""`, the selection is `""` exactly when the list is empty |
| `TabsResolve.ResolveFromCandidates` | packages/plugin/src/Tabs.tsx:120-150 | the selection is the first accepted candidate among URL, storage and `defaultValue`, or the fallback when none is accepted |
| `TabsResolve.StorageIgnoredWithoutGroup` | packages/plugin/src/Tabs.tsx:132 | with an undefined or empty group id, storage contents do not affect the selection |
| `TabsResolve.QueryIgnoredWhenOff` | packages/plugin/src/Tabs.tsx:122 | outside query mode (`false`, or the name `""`), the URL does not affect the selection |
| `TabsKeyboard.NextIndex` | packages/plugin/src/Tabs.tsx:195-205 | only the four navigation keys give an index, always in `[0, count)`; Right and Left step with wrap-around, Home gives 0, End gives `count - 1` |
| `TabsKeyboard.LeftUndoesRight` | packages/plugin/src/Tabs.tsx:197-200 | the ArrowLeft index map inverts the ArrowRight index map |
| `TabsKeyboard.RightUndoesLeft` | packages/plugin/src/Tabs.tsx:197-200 | the ArrowRight index map inverts the ArrowLeft index map |
| `TabsKeyboard.PressRight` | packages/plugin/src/Tabs.tsx:197-198 | applying the ArrowRight index map repeatedly stays in range (reached only if focus is moved onto the selected tab before each press) |
| `TabsKeyboard.PressRightMod` | packages/plugin/src/Tabs.tsx:197-198 | applying the ArrowRight index map k times moves k places on, modulo the number of visible tabs |
| `TabsKeyboard.FullCycle` | packages/plugin/src/Tabs.tsx:197-198 | applying the ArrowRight index map once per visible tab returns to the start |
| `TabsKeyboard.FiveTabs` | packages/plugin/src/Tabs.tsx:197-205 | on five tabs, End gives the fifth, Right on the fifth wraps to the first, Left on the first wraps to the fifth, other keys give nothing |
| `TabsRender.IdsInjective` | packages/plugin/src/Tabs.tsx:234-238 | within one group, distinct values get distinct button ids and distinct panel ids |
| `TabsRender.TabIdIsNotPanelId` | packages/plugin/src/Tabs.tsx:234-238 | no button id equals any panel id |
| `TabsRender.WrapperClassIsJoin` | packages/plugin/src/Tabs.tsx:219 | the wrapper class is `storybook-tabs` followed by the `className` prop when it is non-empty, space-separated |
| `TabsRender.ButtonClasses` | packages/plugin/src/Tabs.tsx:239 | a button carries the base class; it carries the selected modifier when selected, and not when unselected (unless its own class is that name); a truthy `attributes.className` is kept |
| `TabsRender.ButtonClassIsJoin` | packages/plugin/src/Tabs.tsx:239 | the button's class string is exactly that class list, space-joined: the item class is appended, not overwritten |
| `TabsRender.PanelClasses` | packages/plugin/src/TabItem.tsx:16-17 | a panel carries the base class, the active modifier when active, and the item's truthy `className` |
| `TabsRender.PanelClassIsJoin` | packages/plugin/src/TabItem.tsx:16-17 | the panel's class string is exactly that class list, space-joined |
| `TabsRender.PanelClassAsWrittenIgnoresItemClass` | packages/plugin/src/Tabs.tsx:273 | as written, the panel class is the class list of an item with no `className`, so an item class `wide` is never applied |
| `TabsRender.TabButton` | packages/plugin/src/Tabs.tsx:224-245 | a button shows `label ?? value`, is selected exactly when its value is the selection, and has tabIndex 0 if selected, -1 otherwise; its id and `aria-controls` are the tab and panel ids of its value; its class is the space-joined button class list (base, selected modifier when selected, truthy `attributes.className`) |
| `TabsRender.TabStrip` | packages/plugin/src/Tabs.tsx:215-247 | one button per visible item, in strip order |
| `TabsRender.EagerPanel` | packages/plugin/src/Tabs.tsx:266-278 | an eager panel is `hidden` exactly when its value is not the selection; its id is the panel id and its `aria-labelledby` is the tab id; its classes are the base and, when selected, the active modifier, without the item's `className` |
| `TabsRender.LazyPanel` | packages/plugin/src/Tabs.tsx:253-262 | a lazy panel is never `hidden`; its id and `aria-labelledby` are the panel and tab ids; its classes are the base and the active modifier, without the item's `className` |
| `TabsRender.EagerPanels` | packages/plugin/src/Tabs.tsx:265-279 | eager mode renders one panel per item, hidden items included, in order |
| `TabsRender.LazyPanels` | packages/plugin/src/Tabs.tsx:251-264 | lazy mode renders only panels carrying the selected value, none `hidden`; some panel is rendered exactly when an item has that value |
| `TabsRender.Panels` | packages/plugin/src/Tabs.tsx:251-279 | the rendering mode picks the panel list: in eager mode every item, with `hidden` set off-selection; in lazy mode only selected-value panels, none hidden, and some panel exactly when an item has the selected value |
| `TabsRender.StripSelection` | packages/plugin/src/Tabs.tsx:236-237 | tabIndex 0, `aria-selected` and "value equals selection" coincide for every button; all other buttons have tabIndex -1 |
| `TabsRender.AtMostOneSelected` | packages/plugin/src/Tabs.tsx:225-237 | with unique values no two buttons are selected |
| `TabsRender.EagerCrossReference` | packages/plugin/src/Tabs.tsx:234-272 | in eager mode every button's `aria-controls` names a panel whose `aria-labelledby` names the button, shown exactly when the button is selected |
| `TabsRender.LazyCrossReference` | packages/plugin/src/Tabs.tsx:234-258 | in lazy mode the selected button's `aria-controls` names a rendered panel that points back to it |
| `TabsRender.LazyPanelsFor` | packages/plugin/src/Tabs.tsx:251-264 | every item carrying the selected value has its lazy panel rendered |
| `TabsRender.LazySinglePanel` | packages/plugin/src/Tabs.tsx:251-264 | with unique values lazy mode renders exactly one panel if the selection names an item, none otherwise |
| `TabsRender.HiddenSelectionShownWithoutButton` | packages/plugin/src/Tabs.tsx:215-279 | a hidden item selected from outside has no selected button, yet its eager panel is shown |
| `TabsSync.TabsInstance.constructor` | packages/plugin/src/Tabs.tsx:152 | a container starts with the given props, items and initial selection |
| `TabsSync.TabsInstance.OnGroupChange` | packages/plugin/src/Tabs.tsx:158-163 | the handler adopts the event's value exactly when the event's group is the container's own, even if no item has that value |
| `TabsSync.Page.Mount` | packages/plugin/src/Tabs.tsx:152-167 | a new container starts at the resolved value for the current URL and storage; only a truthy group id appends its handler; URL and storage are untouched; the container is registered exactly when its group id is truthy |
| `TabsSync.Page.Unmount` | packages/plugin/src/Tabs.tsx:166 | the container's handler leaves the registry and the others keep their order |
| `TabsSync.Page.Dispatch` | packages/plugin/src/Tabs.tsx:175-179 | every registered container of the event's group adopts the value; the other registered containers keep theirs |
| `TabsSync.Page.Select` | packages/plugin/src/Tabs.tsx:169-189 | the caller selects v. With a truthy group id, storage under the group key becomes v and every registered same-group container adopts v. Query mode sets only the resolved parameter. With a falsy group id the caller is not registered and no registered container changes. Nothing else changes |
| `TabsSync.Page.KeyDown` | packages/plugin/src/Tabs.tsx:192-213 | a navigation key prevents the default and selects the visible item at the next index, with all of `Select`'s effects; any other key changes nothing |
| `TabsSync.Without` | packages/plugin/src/Tabs.tsx:166 | removal drops every occurrence of the handler and keeps all others |
| `TabsSync.WithoutInOrder` | packages/plugin/src/Tabs.tsx:166 | removal keeps the registration order of the remaining handlers |
| `TabsScenarios.SyncedPair` | packages/plugin/src/Tabs.tsx:155-180 | selecting in one of two same-group containers updates the other at once and persists the value; an ungrouped container keeps its selection |
| `TabsScenarios.PersistThenMount` | packages/plugin/src/Tabs.tsx:131-137 | a value persisted by one container is the initial selection of the next container mounted in its group |
| `TabsScenarios.MismatchedSibling` | packages/plugin/src/Tabs.tsx:158-163 | a same-group sibling without the broadcast value adopts it anyway and ends up with no item for its selection |
| `TabsScenarios.QueryDeepLink` | packages/plugin/src/Tabs.tsx:122-129 | `?tab=banana` beats an item flagged `default`; a later select rewrites `tab` and keeps the other parameters |
| `TabsScenarios.HiddenTabSkipped` | packages/plugin/src/Tabs.tsx:192-209 | ArrowRight from the first tab skips a hidden second tab and selects the third |
| `TabsScenarios.SecondArrowRightOnSameButton` | packages/plugin/src/Tabs.tsx:192-209 | two ArrowRight presses on the first of three buttons both select the second tab; a press on the second button selects the third |
| `TabsScenarios.EmptyGroupIdIsolated` | packages/plugin/src/Tabs.tsx:173 | with `groupId = ""` nothing is stored and a sibling with the same empty id keeps its selection |

## Findings

| source | as written | input that shows it | evidently intended | confidence | as-written member | corrected member |
|---|---|---|---|---|---|---|
| packages/plugin/src/Tabs.tsx:273 | panel class is `storybook-tabs__panel` plus the active modifier; the item's `className` prop, documented as the panel's additional class (packages/plugin/src/TabItem.tsx:16-17), is never applied | a `TabItem` with `className="wide"`: its panel's class has no `wide` | the item's truthy `className` is appended to the panel's class, as `attributes.className` is for the button | medium, not executed | `TabsRender.PanelClassAsWrittenIgnoresItemClass` | `TabsRender.PanelClassIsJoin` |

The rendered panels (`EagerPanel`, `LazyPanel`) keep the class as written;
`PanelClass` is the corrected definition.

## Left out

- Style injection (`injectStyles`, packages/plugin/src/styles.ts): DOM plumbing with no decision logic.
- The build output `packages/plugin/dist/index.cjs`: it duplicates the sources.
- `TabItem` rendering its children: it has no logic. Its props are used only as the item record.
- Child filtering through `Children.toArray` and `isValidElement` (packages/plugin/src/Tabs.tsx:53-58). The items are a given sequence.
- Server-side rendering guards (`typeof window === 'undefined'`). A browser host is assumed.
- Spreading the rest of `attributes` onto the button (packages/plugin/src/Tabs.tsx:242). It is opaque and may override `id`, `role`, `tabIndex` or the ARIA attributes; the model does not capture such overrides.
- Panel content, `role` attributes, `aria-orientation` and `data-group-id`. These are constants or opaque payload.
- URL parsing and serialisation, and `history.replaceState`. The query string is a map holding one value per name, so a repeated parameter is not modelled.
- Exceptions thrown by `sessionStorage.setItem` (quota or privacy mode).
- Storage and events in other browser tabs. One page is modelled.
- React machinery: `useState`, `useCallback`, re-renders and batching. Also re-subscription when the `groupId` prop of a mounted container changes: props are fixed per mounted instance.
