/** Client runs of the component, stated as what the host observes. Each run
    is stated for arbitrary options and an arbitrary matcher that meet its
    requires, so a concrete list such as Apple, Banana, Cherry is one
    instance of it. */
module Scenarios {
  import opened Js
  import opened Model
  import opened Filter
  import Navigation
  import opened Component

  /** A query with a non-whitespace character, i.e. one that is not blank. */
  ghost predicate NonBlank(query: string) {
    exists c :: 0 <= c < |query| && !IsWhitespace(query[c])
  }

  /** When the matcher returns the single name `name` and `options[k]` is the
      first option carrying it, the filtered list is that one option. */
  lemma SingleNameNarrows(options: seq<Item>, query: string, matcher: Matcher, name: string, k: nat)
    requires NonBlank(query) && matcher(FilterTexts(options), query) == [name]
    requires k < |options| && Matches(options[k], name)
    requires forall j :: 0 <= j < k ==> !Matches(options[j], name)
    ensures Search(options, query, matcher) == [Some(options[k])]
  {
    var k' := FirstMatch(options, name);
    assert k' == k;
    TrimEmptyIff(query);
    var r := Search(options, query, matcher);
    assert |r| == 1 && r[0] == FindByName(options, name);
  }

  /** Single-select, nothing selected: arrow-down highlights the first option
      and Enter calls `onSelect` with it once, and nothing else. */
  method EnterSelectsFirst(options: seq<Item>, matcher: Matcher) returns (log: seq<Event>, highlight: int)
    requires |options| > 0
    ensures log == [Select(Some(options[0]))] && highlight == 0
  {
    var list := new OptionsList(options, [], false, matcher, "");
    BlankQueryShowsAll(options, "", matcher);
    ghost var entries := list.FilteredOptions();
    assert |entries| == |options| && entries[0] == Some(options[0]);
    var c := list.HandleKeyDown(Navigation.KeyArrowDown);
    assert list.FilteredOptions() == entries;
    assert list.currentIndex == 0;
    c := list.HandleKeyDown(Navigation.KeyEnter);
    log, highlight := list.events, list.currentIndex;
  }

  /** Multi-select with the first option's (truthy) value selected: Enter on
      it calls `onDeselect` once. */
  method EnterDeselectsSelected(options: seq<Item>, matcher: Matcher) returns (log: seq<Event>)
    requires |options| > 0 && Truthy(options[0].value)
    ensures log == [Deselect(options[0])]
  {
    var list := new OptionsList(options, [options[0].value], true, matcher, "");
    BlankQueryShowsAll(options, "", matcher);
    ghost var entries := list.FilteredOptions();
    assert |entries| == |options| && entries[0] == Some(options[0]);
    var c := list.HandleKeyDown(Navigation.KeyArrowDown);
    assert list.FilteredOptions() == entries;
    assert list.currentIndex == 0;
    c := list.HandleKeyDown(Navigation.KeyEnter);
    log := list.events;
  }

  /** Arrow-up from no highlight goes to the last row, and arrow-down there
      wraps to the first. */
  method DownWrapsFromLast(options: seq<Item>, matcher: Matcher) returns (last: int, highlight: int)
    requires |options| > 0
    ensures last == |options| - 1 && highlight == 0
  {
    var list := new OptionsList(options, [], false, matcher, "");
    BlankQueryShowsAll(options, "", matcher);
    ghost var entries := list.FilteredOptions();
    assert |entries| == |options|;
    list.HandleArrowUp();
    assert list.FilteredOptions() == entries;
    last := list.currentIndex;
    list.HandleArrowDown();
    highlight := list.currentIndex;
  }

  /** Enter right after mounting, with no highlight: with an empty `selected`
      the component calls `onSelect(undefined)`; with any value selected it
      throws before calling anything. */
  method EnterWithNoHighlight(options: seq<Item>, selected: seq<Value>, matcher: Matcher)
    returns (c: Completion, log: seq<Event>)
    ensures selected == [] ==> c == Completed && log == [Select(None)]
    ensures selected != [] ==> c == ThrewTypeError && log == []
  {
    var list := new OptionsList(options, selected, false, matcher, "");
    c := list.HandleKeyDown(Navigation.KeyEnter);
    log := list.events;
  }

  /** Mounts the list, optionally highlights the last row with arrow-up, then
      types a query that narrows the list to `options[k]`. */
  method TypeQuery(options: seq<Item>, query: string, matcher: Matcher, name: string, k: nat, highlightLast: bool)
    returns (list: OptionsList)
    requires NonBlank(query) && matcher(FilterTexts(options), query) == [name]
    requires k < |options| && Matches(options[k], name)
    requires forall j :: 0 <= j < k ==> !Matches(options[j], name)
    ensures fresh(list) && list.Valid()
    ensures list.FilteredOptions() == [Some(options[k])]
    ensures list.selected == [] && list.events == [FilterChange(query)]
    ensures list.currentIndex == if highlightLast then |options| - 1 else -1
  {
    list := new OptionsList(options, [], false, matcher, "");
    if highlightLast {
      BlankQueryShowsAll(options, "", matcher);
      assert |list.FilteredOptions()| == |options|;
      list.HandleArrowUp();
    }
    assert list.currentIndex == if highlightLast then |options| - 1 else -1;
    list.HandleChange(query);
    SingleNameNarrows(options, query, matcher, name, k);
    assert list.FilteredOptions() == Search(options, query, matcher);
  }

  /** Typing a query reports it, narrows the list to one option, and down then
      Enter selects that option. */
  method FilterThenSelect(options: seq<Item>, query: string, matcher: Matcher, name: string, k: nat)
    returns (log: seq<Event>)
    requires NonBlank(query) && matcher(FilterTexts(options), query) == [name]
    requires k < |options| && Matches(options[k], name)
    requires forall j :: 0 <= j < k ==> !Matches(options[j], name)
    ensures log == [FilterChange(query), Select(Some(options[k]))]
  {
    var list := TypeQuery(options, query, matcher, name, k, false);
    var c := list.HandleKeyDown(Navigation.KeyArrowDown);
    assert list.FilteredOptions() == [Some(options[k])] && list.currentIndex == 0;
    c := list.HandleKeyDown(Navigation.KeyEnter);
    assert list.FilteredOptions() == [Some(options[k])] && list.currentIndex == 0;
    log := list.events;
  }

  /** With the last of at least two rows highlighted, a query narrows the list
      to one row: arrow-down then moves the highlight past the end instead of
      back to 0, and with nothing selected Enter calls `onSelect(undefined)`. */
  method NarrowingLeavesStaleHighlight(options: seq<Item>, query: string, matcher: Matcher, name: string, k: nat)
    returns (highlight: int, c: Completion, log: seq<Event>)
    requires |options| >= 2
    requires NonBlank(query) && matcher(FilterTexts(options), query) == [name]
    requires k < |options| && Matches(options[k], name)
    requires forall j :: 0 <= j < k ==> !Matches(options[j], name)
    ensures highlight == |options| && c == Completed && log == [FilterChange(query), Select(None)]
  {
    var list := TypeQuery(options, query, matcher, name, k, true);
    c := list.HandleKeyDown(Navigation.KeyArrowDown);
    assert list.FilteredOptions() == [Some(options[k])] && list.currentIndex == |options|;
    c := list.HandleKeyDown(Navigation.KeyEnter);
    highlight, log := list.currentIndex, list.events;
  }

  /** Clicking an option that the filter hides leaves no highlight, yet the
      callback still fires. */
  method SelectHiddenRow(options: seq<Item>, query: string, matcher: Matcher, name: string, k: nat, hidden: Item)
    returns (highlight: int, log: seq<Event>)
    requires NonBlank(query) && matcher(FilterTexts(options), query) == [name]
    requires k < |options| && Matches(options[k], name)
    requires forall j :: 0 <= j < k ==> !Matches(options[j], name)
    requires hidden != options[k]
    ensures highlight == -1 && log == [FilterChange(query), Select(Some(hidden))]
  {
    var list := TypeQuery(options, query, matcher, name, k, false);
    list.HandleSelect(hidden);
    assert list.FilteredOptions() == [Some(options[k])];
    assert Some(hidden) !in list.FilteredOptions();
    highlight, log := list.currentIndex, list.events;
  }

  /** The fruit example: options Apple, Banana, Cherry and a matcher that
      returns "Banana" for the query "an". */
  lemma FruitExample()
    ensures var apple := Item(Num(1), "Apple", None, false);
            var banana := Item(Num(2), "Banana", None, false);
            var cherry := Item(Num(3), "Cherry", None, false);
            var matcher: Matcher := (texts, query) => ["Banana"];
            Search([apple, banana, cherry], "an", matcher) == [Some(banana)]
  {
    var apple := Item(Num(1), "Apple", None, false);
    var banana := Item(Num(2), "Banana", None, false);
    var cherry := Item(Num(3), "Cherry", None, false);
    var matcher: Matcher := (texts, query) => ["Banana"];
    assert !IsWhitespace("an"[0]);
    assert !Matches(apple, "Banana") && Matches(banana, "Banana");
    SingleNameNarrows([apple, banana, cherry], "an", matcher, "Banana", 1);
  }
}
