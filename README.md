# OptionsList: a verified model of the select menu's option list

This project models the controller behind the searchable, keyboard-driven
option list of the select menu (`src/select-menu/src/OptionsList.js`). The
React rendering is stripped away. What remains is a small sequential state
machine:

- **Props:** `options`, `selected`, `isMultiSelect` and the pluggable matcher
  `optionsFilter`.
- **State:** `searchValue`, a local copy of `selected`, and the highlight
  `currentIndex`, which starts at -1.
- **Callbacks:** `onSelect`, `onDeselect` and `onFilterChange`. The model
  records each call in an event log, so "called exactly once" can be stated.

The modules follow the parts of the component:

- `Js` (`js.dfy`): the JavaScript semantics the component relies on.
  - `undefined`, written as `Option`.
  - A TypeError thrown by reading `.value` of `undefined`, written as
    `Outcome` and `Completion`.
  - `String.prototype.trim`, using ECMAScript's whitespace set.

  Each use of `Array.prototype.find` and `findIndex` is written out, as a
  first-order search, in the module where it occurs.
- `Model` (`model.dfy`): option values with JavaScript truthiness, option
  records, filtered entries and callback events.
- `Filter` (`filter.dfy`): `search`, with the matcher as an uninterpreted
  function `(seq<string>, string) -> seq<string>`.
- `Selection` (`selection.dfy`): `isSelected` and `getCurrentIndex`.
- `Navigation` (`navigation.dfy`): the updaters that the arrow keys pass to
  `setState`.
- `Rows` (`rows.dfy`): what `render` passes to the row renderer, and the
  scroll hint.
- `Component` (`component.dfy`): the class `OptionsList`.
  - Props and state are fields.
  - Each handler is a method with a `modifies` clause.
  - `getFilteredOptions` is `OptionsList.FilteredOptions`, which is `Search`
    applied to the current fields.
- `Scenarios` (`scenarios.dfy`): client runs of the component. Each one is
  stated for any options and any matcher that meet its requirements, and says
  what the host observes. `FruitExample` is one concrete instance.

The model follows what the code does, including these behaviours:

- Arrow-down compares the next index with the list length using `===`. So an
  index already past the end of the list keeps growing instead of being
  clamped.
- On an empty list, arrow-up from no highlight gives -1 and arrow-down gives 0.
- Changing the filter never resets or clamps the highlight.
- Enter ignores `isMultiSelect` and never calls `close`.
  - It calls `onDeselect` when the highlighted option is selected, and
    `onSelect` otherwise.
  - Nothing may be defined under the highlight. This happens when the index
    is out of range, or when the entry is an `undefined` that the matcher
    produced. Then `isSelected(undefined)` decides what happens:
    - When the state's `selected` is non-empty, `find` calls its callback.
      The callback reads `undefined.value` and throws a TypeError before any
      callback prop is called. The model records this as `ThrewTypeError`, not
      as a precondition, because keydown events can arrive with any highlight.
    - When `selected` is empty, `find` never calls its callback, so
      `isSelected` is false and `onSelect(undefined)` is called. This is what
      happens for Enter right after mounting with the default `selected`.
- `isSelected` is false for an option whose value is falsy (`""` or `0`),
  even when that value is in `selected`.
- `search` maps each name the matcher returns to the first option whose
  `labelInList` OR `label` equals it. That may be a different option from the
  one whose filter text the matcher returned.

The code also lacks some behaviours that a reader of a select menu might
expect. The model does not add them:

- The highlight is not clamped or reset after a filter change.
- The arrow keys do not skip disabled rows.
- Enter never calls `close`, in single-select mode too.
- Enter on a selected option deselects it, in single-select mode too.
- A matched name is not resolved with `labelInList` taking priority over
  `label`. The first option that matches either one is taken.

`label` is a reserved word in Dafny, so the option record calls that field
`displayLabel`.

## Model

| member | source | states |
|---|---|---|
| `Js.LeadingSpaces` | src/select-menu/src/OptionsList.js:116 | the part of `trim` that drops leading whitespace: the count covers only whitespace, and the character after it, if any, is not whitespace |
| `Js.TrailingSpaces` | src/select-menu/src/OptionsList.js:116 | the part of `trim` that drops trailing whitespace: the count covers only whitespace, and the character before it, if any, is not whitespace |
| `Js.Trim` | src/select-menu/src/OptionsList.js:116 | `trim` returns the middle of the string: everything it drops is whitespace, and what it keeps neither starts nor ends with whitespace |
| `Js.TrimEmptyIff` | src/select-menu/src/OptionsList.js:116 | `searchValue.trim() === ''` holds exactly when every character is ECMAScript whitespace (both directions) |
| `Filter.FilterTexts` | src/select-menu/src/OptionsList.js:119 | the matcher receives one text per option, in order: the option's `labelInList` when it is a non-empty string, its `label` otherwise |
| `Filter.FirstMatch` | src/select-menu/src/OptionsList.js:122 | the position where `options.find` stops: -1 iff no option has the name as `labelInList` or `label`; otherwise an option that has it, with none before it |
| `Filter.FindByName` | src/select-menu/src/OptionsList.js:122 | `options.find(...)` for one name is `undefined` iff no option has the name as `labelInList` or `label`; otherwise it is an option k that has it, with no option before k having it |
| `Filter.Search` | src/select-menu/src/OptionsList.js:112-124 | a blank query keeps the options' length; any other query gives one entry per name returned by the matcher |
| `Filter.EntriesAreOptions` | src/select-menu/src/OptionsList.js:116-123 | every defined entry of the filtered list is one of the options, whatever the matcher returns |
| `Filter.BlankQueryShowsAll` | src/select-menu/src/OptionsList.js:116-117 | for a whitespace-only query, the filtered list equals the options: same length, same order, and independent of the matcher |
| `Filter.QueryMapsNamesBack` | src/select-menu/src/OptionsList.js:118-123 | for a query with a non-space character, entry i is `undefined` iff no option has the i-th returned name as `labelInList` or `label`; otherwise it is the first option that does |
| `Filter.OnlyMatcherOutputMatters` | src/select-menu/src/OptionsList.js:118-121 | two matchers that return the same names for these texts and this query give the same filtered list |
| `Filter.ClosedMatcherHasNoHoles` | src/select-menu/src/OptionsList.js:118-123 | a matcher that only returns texts it was given never causes an `undefined` entry |
| `Filter.NameResolvesToEarlierLabel` | src/select-menu/src/OptionsList.js:122 | counterexample: the name picked from the second option's `labelInList` resolves to the first option, whose `label` is that name |
| `Selection.FindValue` | src/select-menu/src/OptionsList.js:109 | `selected.find(v => v === item.value)` is `undefined` iff the value does not occur in `selected`, and otherwise is that value |
| `Selection.IsSelected` | src/select-menu/src/OptionsList.js:106-110 | for an option, `isSelected` is true iff its value occurs in the state copy of `selected` and is truthy; for `undefined`, it is false when `selected` is empty and throws otherwise |
| `Selection.FalsyValueNeverSelected` | src/select-menu/src/OptionsList.js:109 | an option whose value is falsy reads as unselected even when that value is in `selected` |
| `Selection.IndexOfValue` | src/select-menu/src/OptionsList.js:130-132 | the `findIndex` inside `getCurrentIndex` returns the first entry that has the target value, or -1 when no entry has it; it throws iff an `undefined` entry comes before any match |
| `Selection.IndexOfValueTotal` | src/select-menu/src/OptionsList.js:130-132 | with no `undefined` entries, that search never throws, and an empty `selected` gives -1 |
| `Navigation.Up` | src/select-menu/src/OptionsList.js:157-163 | the arrow-up updater keeps the index at -1 or above; it keeps a non-empty list's index in range; it moves a stale index past the end down by one |
| `Navigation.Down` | src/select-menu/src/OptionsList.js:168-174 | the arrow-down updater keeps the index at 0 or above; it keeps a non-empty list's index in range; it moves a stale index past the end one further, with no clamping |
| `Navigation.FromNoHighlight` | src/select-menu/src/OptionsList.js:155-175 | from -1, down goes to 0 and up goes to length - 1, which is 0 and -1 on an empty list |
| `Navigation.UpDownInverse` | src/select-menu/src/OptionsList.js:155-175 | for an in-range index, down-then-up and up-then-down both return to it, across the wrap too |
| `Navigation.DownTimesCycles` | src/select-menu/src/OptionsList.js:166-175 | k ≤ n presses of down from index i land on i + k, wrapped once, so n presses return to i |
| `Navigation.UpTimesCycles` | src/select-menu/src/OptionsList.js:155-164 | k ≤ n presses of up from index i land on i - k, wrapped once, so n presses return to i |
| `Navigation.StaleIndexKeepsGrowing` | src/select-menu/src/OptionsList.js:169-172 | from an index at or past the end of the list, k presses of down give index + k and never wrap |
| `Rows.RowAt` | src/select-menu/src/OptionsList.js:271-286 | the row renderer throws iff the entry is `undefined`; otherwise the row carries the option's value, label and disabled flag; it is highlighted iff its index is `currentIndex`; it is selected iff `isSelected`; it is selectable iff it is unselected or multi-select is on |
| `Rows.Rows` | src/select-menu/src/OptionsList.js:263-286 | one row per filtered entry, and row i is the descriptor `renderItem` builds for entry i |
| `Rows.HighlightedRows` | src/select-menu/src/OptionsList.js:275 | only the row at `currentIndex` can be highlighted, and it is highlighted whenever it exists and is defined |
| `Rows.ScrollToIndex` | src/select-menu/src/OptionsList.js:238 | the list is told to scroll iff the highlight is neither -1 nor 0, and then to the highlight itself |
| `Component.IndexOfItem` | src/select-menu/src/OptionsList.js:198 | `options.findIndex(option => option === item)` is -1 iff the item is not in the filtered list, and otherwise the item's first position |
| `Component.OptionsList.constructor` | src/select-menu/src/OptionsList.js:69-77 | state starts from `defaultSearchValue` and a copy of `selected`, with highlight -1 and no callbacks called |
| `Component.OptionsList.FilteredOptions` | src/select-menu/src/OptionsList.js:135-139 | `getFilteredOptions` is the `options` prop under the current query: a blank query gives every option in order; any other query gives one entry per name the matcher returns, with the contents `Filter.QueryMapsNamesBack` states |
| `Component.OptionsList.IndexOfLastSelected` | src/select-menu/src/OptionsList.js:126-133 | `getCurrentIndex` uses the `selected` prop: a found index is the first filtered entry holding the prop's last value; -1 means every entry is defined and none holds it (always so for an empty prop); it throws iff an `undefined` entry comes before any match |
| `Component.OptionsList.ReceiveProps` | src/select-menu/src/OptionsList.js:97-104 | new props are stored and the state copy of `selected` is re-synced to the prop; query, highlight and callbacks are unchanged |
| `Component.OptionsList.HandleArrowUp` | src/select-menu/src/OptionsList.js:155-164 | the highlight becomes the arrow-up step over the current filtered length; nothing else changes |
| `Component.OptionsList.HandleArrowDown` | src/select-menu/src/OptionsList.js:166-175 | the highlight becomes the arrow-down step over the current filtered length; nothing else changes |
| `Component.OptionsList.HandleEnter` | src/select-menu/src/OptionsList.js:177-187 | with an option highlighted, exactly one event is logged: `Deselect(item)` if it is selected, `Select(item)` otherwise, whatever `isMultiSelect` is; with nothing defined under the highlight, it logs `Select(undefined)` when the state's `selected` is empty and throws, logging nothing, otherwise; it never logs `Close` and never moves the highlight |
| `Component.OptionsList.HandleKeyDown` | src/select-menu/src/OptionsList.js:141-153 | key 38 moves up, key 40 moves down, key 13 runs Enter with all of Enter's cases, including `onSelect(undefined)`; any other key changes nothing |
| `Component.OptionsList.HandleChange` | src/select-menu/src/OptionsList.js:189-194 | the query becomes q and `FilterChange(q)` is logged once; the highlight is neither reset nor clamped |
| `Component.OptionsList.SetCurrentIndex` | src/select-menu/src/OptionsList.js:196-200 | the highlight becomes the item's first position in the filtered list, or -1 when it is not there |
| `Component.OptionsList.HandleSelect` | src/select-menu/src/OptionsList.js:196-205 | the highlight becomes the item's first position in the filtered list, or -1 when it is not there; then `Select(item)` is logged once; the query is untouched |
| `Component.OptionsList.HandleDeselect` | src/select-menu/src/OptionsList.js:196-210 | the highlight becomes the item's first position in the filtered list, or -1 when it is not there; then `Deselect(item)` is logged once; the query is untouched |
| `Component.OptionsList.Render` | src/select-menu/src/OptionsList.js:236-286 | one row per filtered entry, row i being the row descriptor of entry i (so its key, label, highlight, selection, selectability and disabled flag are those `Rows.RowAt` states); a row throws iff its entry is `undefined`; the scroll hint is given iff the highlight is neither -1 nor 0, and then it is the highlight |
| `Scenarios.SingleNameNarrows` | src/select-menu/src/OptionsList.js:116-123 | when the matcher returns the single name of option k, and no earlier option has that name, the filtered list is exactly option k |
| `Scenarios.EnterSelectsFirst` | src/select-menu/src/OptionsList.js:141-187 | in single-select mode with nothing selected, arrow-down then Enter highlights row 0 and calls `onSelect` with the first option once, and no other callback |
| `Scenarios.EnterDeselectsSelected` | src/select-menu/src/OptionsList.js:177-187 | in multi-select mode with the first option's truthy value selected, arrow-down then Enter calls `onDeselect` with that option once |
| `Scenarios.EnterWithNoHighlight` | src/select-menu/src/OptionsList.js:141-187 | Enter right after mounting calls `onSelect(undefined)` when `selected` is empty, and throws without calling anything when it is not |
| `Scenarios.DownWrapsFromLast` | src/select-menu/src/OptionsList.js:155-175 | arrow-up from no highlight goes to the last row, and arrow-down there wraps to 0 |
| `Scenarios.TypeQuery` | src/select-menu/src/OptionsList.js:155-194 | typing a query that selects one name reports the query once, narrows the list to that option, and leaves the highlight where it was |
| `Scenarios.FilterThenSelect` | src/select-menu/src/OptionsList.js:166-194 | typing a query reports it; the list narrows to one option; down then Enter selects that option |
| `Scenarios.NarrowingLeavesStaleHighlight` | src/select-menu/src/OptionsList.js:166-187 | after the filter narrows a list of n ≥ 2 rows to one while the last row is highlighted, arrow-down moves the highlight to n instead of 0, and Enter, with nothing selected, calls `onSelect(undefined)` |
| `Scenarios.SelectHiddenRow` | src/select-menu/src/OptionsList.js:196-205 | selecting an option that the filter hides sets the highlight to -1 and still calls `onSelect` |
| `Scenarios.FruitExample` | src/select-menu/src/OptionsList.js:116-123 | with options Apple, Banana, Cherry and a matcher that returns "Banana" for "an", the filtered list is Banana alone |

## Left out

- Layout and presentation are not modelled:
  - the JSX tree (`Pane`, `TableHead`, `SearchTableHeaderCell`);
  - the `VirtualList` virtualizer;
  - the pixel arithmetic (`listHeight`, `optionSize`, `overscanCount`);
  - each row's `style` and `height`.
- The bound `onSelect`/`onDeselect` closures of a row are not modelled as row
  fields. They are the methods `HandleSelect` and `HandleDeselect`.
- The `fuzzaldrin-plus` default matcher is not modelled, because it is a
  foreign library. The matcher is an arbitrary function, and no ranking is
  asserted.
- `componentDidMount` and `componentWillUnmount` are not modelled, because
  they are browser I/O. This covers the `requestAnimationFrame` focus and the
  registration of the window keydown listener. The code registers that
  listener only when `hasFilter` is set, so without a filter no key reaches
  `HandleKeyDown`.
- `assignSearchRef` is not modelled. It stores a DOM reference.
- PropTypes and defaultProps are not modelled, because they are runtime type
  metadata. The constructor takes every prop it uses explicitly.
- React's `setState` batching is not modelled: state updates apply at once.
  One render happens after a `selected` prop changes but before
  `componentDidUpdate` re-syncs the state copy. That render shows the old
  selection, and the model does not include it.
- The callbacks are not modelled as code. They are entries in the event log.
  The host's reaction to them is a later `ReceiveProps` call.
- `SetCurrentIndex` compares entries by value, not by object identity, even
  though the source uses `===`. Two distinct option objects with equal fields
  cannot be told apart.
- Option values are strings or integers. Fractional numbers, `NaN` and `-0`
  are not modelled.
- `label` and `labelInList` are assumed to be strings when present. Other
  JavaScript values are not modelled.
- docs/src/components/Layout.js, src/typography/src/Text.js,
  src/typography/src/Code.js and docs/src/theme-builder/sections/CodeSnippet.js
  are not part of this model. They are theme lookups and page glue with no
  option-list logic.
