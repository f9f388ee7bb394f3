/** The `OptionsList` component with its props and state as fields. Each
    handler runs to completion; `setState` is applied at once, and the
    callbacks it calls are appended to `events` in call order. */
module Component {
  import opened Js
  import opened Model
  import opened Filter
  import Selection
  import Navigation
  import Rows

  /** `entries.findIndex(option => option === item)`: the first position of
      `item` in the filtered list, or -1. */
  function IndexOfItem(entries: seq<Entry>, item: Item): (k: int)
    ensures -1 <= k < |entries|
    ensures k == -1 <==> Some(item) !in entries
    ensures 0 <= k ==> entries[k] == Some(item) && forall j :: 0 <= j < k ==> entries[j] != Some(item)
  {
    if entries == [] then -1
    else if entries[0] == Some(item) then 0
    else
      var k := IndexOfItem(entries[1..], item);
      if k == -1 then -1 else k + 1
  }

  /** What `render` hands the virtualized list. */
  datatype View = View(itemCount: nat, scrollToIndex: Option<int>, rows: seq<Outcome<Rows.Row>>)

  class OptionsList {
    // props
    var options: seq<Item>
    var propSelected: seq<Value>
    var isMultiSelect: bool
    var optionsFilter: Matcher

    // state
    var searchValue: string
    var selected: seq<Value>
    var currentIndex: int

    // callbacks made so far: onSelect, onDeselect, onFilterChange
    var events: seq<Event>

    /** The highlight is -1 (none) or a non-negative index, and the local copy
        of `selected` agrees with the prop. */
    ghost predicate Valid()
      reads this
    {
      -1 <= currentIndex && selected == propSelected
    }

    /** The constructor: state starts from `defaultSearchValue`, a copy of
        `selected` and no highlight. */
    constructor (options: seq<Item>, selected: seq<Value>, isMultiSelect: bool,
                 optionsFilter: Matcher, defaultSearchValue: string)
      ensures Valid()
      ensures this.options == options && propSelected == selected
      ensures this.isMultiSelect == isMultiSelect && this.optionsFilter == optionsFilter
      ensures searchValue == defaultSearchValue && this.selected == selected && currentIndex == -1
      ensures events == []
    {
      this.options := options;
      this.propSelected := selected;
      this.isMultiSelect := isMultiSelect;
      this.optionsFilter := optionsFilter;
      this.searchValue := defaultSearchValue;
      this.selected := selected;
      this.currentIndex := -1;
      this.events := [];
    }

    /** `getFilteredOptions()`: the props' options under the current query.
        A blank query shows every option in order; otherwise there is one
        entry per name the matcher returns (see `Filter.QueryMapsNamesBack`). */
    function FilteredOptions(): (r: seq<Entry>)
      reads this`options, this`searchValue, this`optionsFilter
      ensures Trim(searchValue) == "" ==> |r| == |options| && forall i :: 0 <= i < |options| ==> r[i] == Some(options[i])
      ensures Trim(searchValue) != "" ==> |r| == |optionsFilter(FilterTexts(options), searchValue)|
    {
      Search(options, searchValue, optionsFilter)
    }

    /** `getFilteredOptions()[currentIndex]`: `undefined` when the highlight is
        out of range or sits on an `undefined` entry. */
    function HighlightedEntry(): (r: Entry)
      reads this`options, this`searchValue, this`optionsFilter, this`currentIndex
      ensures r.Some? <==> 0 <= currentIndex < |FilteredOptions()| && FilteredOptions()[currentIndex].Some?
      ensures r.Some? ==> FilteredOptions()[currentIndex] == r
    {
      var entries := FilteredOptions();
      if 0 <= currentIndex < |entries| then entries[currentIndex] else None
    }

    /** `getCurrentIndex()`: the first position in the filtered list holding
        the last value of the `selected` PROP (not the state copy), or -1 when
        no entry holds it. Reading `.value` of an `undefined` entry reached
        before any match throws. An empty prop looks for `undefined`, which
        no option's value is. */
    function IndexOfLastSelected(): (r: Outcome<int>)
      reads this`options, this`searchValue, this`optionsFilter, this`propSelected
      ensures r.Returns? ==> -1 <= r.value < |FilteredOptions()|
      ensures r.Returns? && r.value >= 0 ==>
                propSelected != [] && FilteredOptions()[r.value].Some? &&
                FilteredOptions()[r.value].value.value == propSelected[|propSelected| - 1]
      ensures r.Returns? ==>
                forall j :: 0 <= j < |FilteredOptions()| && (r.value == -1 || j < r.value) ==>
                  FilteredOptions()[j].Some? &&
                  (propSelected == [] || FilteredOptions()[j].value.value != propSelected[|propSelected| - 1])
      ensures r.ThrowsTypeError? <==>
                exists k :: 0 <= k < |FilteredOptions()| && FilteredOptions()[k].None? &&
                  forall j :: 0 <= j < k ==>
                    FilteredOptions()[j].Some? &&
                    (propSelected == [] || FilteredOptions()[j].value.value != propSelected[|propSelected| - 1])
      ensures r.Returns? && propSelected == [] ==> r.value == -1
    {
      Selection.IndexOfValue(FilteredOptions(), Selection.LastSelected(propSelected))
    }

    /** New props arrive, then `componentDidUpdate` copies a changed `selected`
        prop into state. Query, highlight and callbacks are untouched. */
    method ReceiveProps(newOptions: seq<Item>, newSelected: seq<Value>, newIsMultiSelect: bool, newOptionsFilter: Matcher)
      requires Valid()
      modifies this`options, this`propSelected, this`isMultiSelect, this`optionsFilter, this`selected
      ensures Valid()
      ensures options == newOptions && propSelected == newSelected
      ensures isMultiSelect == newIsMultiSelect && optionsFilter == newOptionsFilter
      ensures selected == newSelected
    {
      var prevSelected := propSelected;
      options, propSelected, isMultiSelect, optionsFilter := newOptions, newSelected, newIsMultiSelect, newOptionsFilter;
      if prevSelected != propSelected {
        selected := propSelected;
      }
    }

    /** `handleArrowUp`. */
    method HandleArrowUp()
      requires Valid()
      modifies this`currentIndex
      ensures Valid()
      ensures currentIndex == Navigation.Up(old(currentIndex), |FilteredOptions()|)
    {
      var entries := FilteredOptions();
      currentIndex := Navigation.Up(currentIndex, |entries|);
    }

    /** `handleArrowDown`. */
    method HandleArrowDown()
      requires Valid()
      modifies this`currentIndex
      ensures Valid()
      ensures currentIndex == Navigation.Down(old(currentIndex), |FilteredOptions()|)
    {
      var entries := FilteredOptions();
      currentIndex := Navigation.Down(currentIndex, |entries|);
    }

    /** `handleEnter`: toggles the highlighted option through exactly one
        callback, whatever `isMultiSelect` is; it never closes the menu and
        leaves the highlight where it is. With nothing defined under the
        highlight, `isSelected(undefined)` throws before any callback when the
        state's `selected` is non-empty, and is false when it is empty, so
        `onSelect(undefined)` is called. */
    method HandleEnter() returns (c: Completion)
      requires Valid()
      modifies this`events
      ensures Valid()
      ensures HighlightedEntry().None? && selected != [] ==> c == ThrewTypeError && events == old(events)
      ensures HighlightedEntry().None? && selected == [] ==> c == Completed && events == old(events) + [Select(None)]
      ensures HighlightedEntry().Some? ==>
                var item := HighlightedEntry().value;
                && c == Completed
                && events == old(events) + [if item.value in selected && Truthy(item.value)
                                            then Deselect(item) else Select(Some(item))]
    {
      var entries := FilteredOptions();
      var entry := if 0 <= currentIndex < |entries| then entries[currentIndex] else None;
      match Selection.IsSelected(selected, entry)
      case ThrowsTypeError =>
        return ThrewTypeError;
      case Returns(isSelected) =>
        if isSelected {
          events := events + [Deselect(entry.value)];
        } else {
          events := events + [Select(entry)];
        }
        c := Completed;
    }

    /** `handleKeyDown`: up, down and Enter by key code; any other key
        changes nothing. */
    method HandleKeyDown(keyCode: int) returns (c: Completion)
      requires Valid()
      modifies this`currentIndex, this`events
      ensures Valid()
      ensures keyCode == Navigation.KeyArrowUp ==>
                c == Completed && events == old(events) &&
                currentIndex == Navigation.Up(old(currentIndex), |FilteredOptions()|)
      ensures keyCode == Navigation.KeyArrowDown ==>
                c == Completed && events == old(events) &&
                currentIndex == Navigation.Down(old(currentIndex), |FilteredOptions()|)
      ensures keyCode == Navigation.KeyEnter ==>
                currentIndex == old(currentIndex) &&
                (HighlightedEntry().None? && selected != [] ==> c == ThrewTypeError && events == old(events)) &&
                (HighlightedEntry().None? && selected == [] ==> c == Completed && events == old(events) + [Select(None)]) &&
                (HighlightedEntry().Some? ==>
                   var item := HighlightedEntry().value;
                   c == Completed &&
                   events == old(events) + [if item.value in selected && Truthy(item.value)
                                            then Deselect(item) else Select(Some(item))])
      ensures keyCode !in {Navigation.KeyArrowUp, Navigation.KeyArrowDown, Navigation.KeyEnter} ==>
                c == Completed && events == old(events) && currentIndex == old(currentIndex)
    {
      c := Completed;
      if keyCode == Navigation.KeyArrowUp {
        HandleArrowUp();
      }
      if keyCode == Navigation.KeyArrowDown {
        HandleArrowDown();
      }
      if keyCode == Navigation.KeyEnter {
        c := HandleEnter();
      }
    }

    /** `handleChange`: stores the new query and reports it once. The
        highlight is neither reset nor clamped to the new list. */
    method HandleChange(query: string)
      requires Valid()
      modifies this`searchValue, this`events
      ensures Valid()
      ensures searchValue == query && events == old(events) + [FilterChange(query)]
      ensures currentIndex == old(currentIndex)
    {
      searchValue := query;
      events := events + [FilterChange(query)];
    }

    /** `setCurrentIndex`: the highlight moves to the first position of `item`
        in the filtered list, or to -1 when it is not there. */
    method SetCurrentIndex(item: Item)
      requires Valid()
      modifies this`currentIndex
      ensures Valid()
      ensures currentIndex == -1 <==> Some(item) !in FilteredOptions()
      ensures currentIndex >= 0 ==>
                currentIndex < |FilteredOptions()| && FilteredOptions()[currentIndex] == Some(item) &&
                forall j :: 0 <= j < currentIndex ==> FilteredOptions()[j] != Some(item)
    {
      var entries := FilteredOptions();
      currentIndex := IndexOfItem(entries, item);
    }

    /** `handleSelect`: highlight the item, then call `onSelect` with it once. */
    method HandleSelect(item: Item)
      requires Valid()
      modifies this`currentIndex, this`events
      ensures Valid()
      ensures currentIndex == -1 <==> Some(item) !in FilteredOptions()
      ensures currentIndex >= 0 ==>
                currentIndex < |FilteredOptions()| && FilteredOptions()[currentIndex] == Some(item) &&
                forall j :: 0 <= j < currentIndex ==> FilteredOptions()[j] != Some(item)
      ensures events == old(events) + [Select(Some(item))]
    {
      SetCurrentIndex(item);
      events := events + [Select(Some(item))];
    }

    /** `handleDeselect`: highlight the item, then call `onDeselect` with it once. */
    method HandleDeselect(item: Item)
      requires Valid()
      modifies this`currentIndex, this`events
      ensures Valid()
      ensures currentIndex == -1 <==> Some(item) !in FilteredOptions()
      ensures currentIndex >= 0 ==>
                currentIndex < |FilteredOptions()| && FilteredOptions()[currentIndex] == Some(item) &&
                forall j :: 0 <= j < currentIndex ==> FilteredOptions()[j] != Some(item)
      ensures events == old(events) + [Deselect(item)]
    {
      SetCurrentIndex(item);
      events := events + [Deselect(item)];
    }

    /** `render`, less the layout: one row per filtered entry, each row
        highlighted exactly when it is at `currentIndex`, and a scroll hint
        for a highlight other than none or the first row. */
    function Render(): (v: View)
      reads this
      ensures v.itemCount == |FilteredOptions()| == |v.rows|
      ensures forall i :: 0 <= i < |v.rows| && v.rows[i].Returns? ==> (v.rows[i].value.isHighlighted <==> i == currentIndex)
      ensures forall i :: 0 <= i < |v.rows| ==> (v.rows[i].ThrowsTypeError? <==> FilteredOptions()[i].None?)
      ensures forall i :: 0 <= i < |v.rows| ==> v.rows[i] == Rows.RowAt(FilteredOptions(), i, currentIndex, selected, isMultiSelect)
      ensures v.scrollToIndex == Rows.ScrollToIndex(currentIndex)
      ensures v.scrollToIndex.Some? <==> currentIndex != -1 && currentIndex != 0
    {
      var entries := FilteredOptions();
      View(|entries|, Rows.ScrollToIndex(currentIndex), Rows.Rows(entries, currentIndex, selected, isMultiSelect))
    }
  }
}
