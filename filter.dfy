/** The filter step, `search`: a blank query shows every option; otherwise the
    pluggable matcher ranks the options' texts and each returned name is mapped
    back to an option. */
module Filter {
  import opened Js
  import opened Model

  /** The `optionsFilter` prop: given the options' texts and the query, the
      names to show, best match first. Fuzzy ranking is the matcher's business
      and is not modelled. */
  type Matcher = (seq<string>, string) -> seq<string>

  /** `item.labelInList || item.label`. */
  function FilterText(item: Item): string {
    match item.labelInList
    case Some(s) => if s != "" then s else item.displayLabel
    case None => item.displayLabel
  }

  /** `options.map(item => item.labelInList || item.label)`: the texts the
      matcher sees, one per option and in order, each the option's
      `labelInList` when that is a non-empty string and its `label` otherwise. */
  function FilterTexts(options: seq<Item>): (texts: seq<string>)
    ensures |texts| == |options|
    ensures forall i :: 0 <= i < |options| && options[i].labelInList.Some? && options[i].labelInList.value != "" ==>
              texts[i] == options[i].labelInList.value
    ensures forall i :: 0 <= i < |options| && (options[i].labelInList.None? || options[i].labelInList.value == "") ==>
              texts[i] == options[i].displayLabel
  {
    seq(|options|, i requires 0 <= i < |options| => FilterText(options[i]))
  }

  /** `item.labelInList === name || item.label === name`. */
  predicate Matches(item: Item, name: string) {
    item.labelInList == Some(name) || item.displayLabel == name
  }

  /** The index `options.find(item => Matches(item, name))` stops at: the first
      option carrying `name`, or -1 when none does. */
  function FirstMatch(options: seq<Item>, name: string): (k: int)
    ensures -1 <= k < |options|
    ensures k == -1 <==> forall j :: 0 <= j < |options| ==> !Matches(options[j], name)
    ensures 0 <= k ==> Matches(options[k], name) && forall j :: 0 <= j < k ==> !Matches(options[j], name)
  {
    if options == [] then -1
    else if Matches(options[0], name) then 0
    else
      var k := FirstMatch(options[1..], name);
      if k == -1 then -1 else k + 1
  }

  /** `options.find(item => item.labelInList === name || item.label === name)`:
      `undefined` when no option carries `name`, and otherwise the first
      option that does. */
  function FindByName(options: seq<Item>, name: string): (r: Entry)
    ensures r.None? <==> forall j :: 0 <= j < |options| ==> !Matches(options[j], name)
    ensures r.Some? ==> exists k :: 0 <= k < |options| && r.value == options[k] && Matches(options[k], name) &&
                                    forall j :: 0 <= j < k ==> !Matches(options[j], name)
  {
    var k := FirstMatch(options, name);
    if k == -1 then None else Some(options[k])
  }

  /** `search(options)` under the current `searchValue` and `optionsFilter`. */
  function Search(options: seq<Item>, searchValue: string, matcher: Matcher): (r: seq<Entry>)
    ensures Trim(searchValue) == "" ==> |r| == |options|
    ensures Trim(searchValue) != "" ==> |r| == |matcher(FilterTexts(options), searchValue)|
  {
    if Trim(searchValue) == "" then
      seq(|options|, i requires 0 <= i < |options| => Some(options[i]))
    else
      var names := matcher(FilterTexts(options), searchValue);
      seq(|names|, i requires 0 <= i < |names| => FindByName(options, names[i]))
  }

  /** A query made of whitespace only leaves the options as they are: same
      length, same order, and the matcher is not consulted. */
  lemma {:induction false} BlankQueryShowsAll(options: seq<Item>, searchValue: string, matcher: Matcher)
    requires forall i :: 0 <= i < |searchValue| ==> IsWhitespace(searchValue[i])
    ensures |Search(options, searchValue, matcher)| == |options|
    ensures forall i :: 0 <= i < |options| ==> Search(options, searchValue, matcher)[i] == Some(options[i])
  {
    TrimEmptyIff(searchValue);
  }

  /** For a query with a non-whitespace character, the result has one entry
      per name the matcher returned; entry i is `undefined` exactly when no
      option carries the i-th name as `labelInList` or `label`, and otherwise
      is the first option that does. */
  lemma {:induction false} QueryMapsNamesBack(options: seq<Item>, searchValue: string, matcher: Matcher, i: nat)
    requires exists c :: 0 <= c < |searchValue| && !IsWhitespace(searchValue[c])
    requires i < |matcher(FilterTexts(options), searchValue)|
    ensures var names := matcher(FilterTexts(options), searchValue);
            var r := Search(options, searchValue, matcher);
            && |r| == |names|
            && (r[i].None? <==> forall k :: 0 <= k < |options| ==> !Matches(options[k], names[i]))
            && (r[i].Some? ==> var k := FirstMatch(options, names[i]);
                                 && 0 <= k < |options| && r[i].value == options[k]
                                 && Matches(options[k], names[i])
                                 && forall j :: 0 <= j < k ==> !Matches(options[j], names[i]))
  {
    TrimEmptyIff(searchValue);
  }

  /** Every defined entry of the filtered list is one of the options: the
      filter never invents an option, whatever the matcher returns. */
  lemma EntriesAreOptions(options: seq<Item>, searchValue: string, matcher: Matcher, i: nat)
    requires i < |Search(options, searchValue, matcher)| && Search(options, searchValue, matcher)[i].Some?
    ensures Search(options, searchValue, matcher)[i].value in options
  {
  }

  /** The result depends on the matcher only through what it returns for the
      options' texts and the query. */
  lemma {:induction false} OnlyMatcherOutputMatters(options: seq<Item>, searchValue: string, m1: Matcher, m2: Matcher)
    requires m1(FilterTexts(options), searchValue) == m2(FilterTexts(options), searchValue)
    ensures Search(options, searchValue, m1) == Search(options, searchValue, m2)
  {
  }

  /** A matcher that only returns texts it was given never leaves an
      `undefined` hole in the result. */
  lemma {:induction false} ClosedMatcherHasNoHoles(options: seq<Item>, searchValue: string, matcher: Matcher)
    requires forall name :: name in matcher(FilterTexts(options), searchValue) ==> name in FilterTexts(options)
    ensures forall i :: 0 <= i < |Search(options, searchValue, matcher)| ==> Search(options, searchValue, matcher)[i].Some?
  {
    var texts := FilterTexts(options);
    var r := Search(options, searchValue, matcher);
    if Trim(searchValue) != "" {
      var names := matcher(texts, searchValue);
      forall i | 0 <= i < |r| ensures r[i].Some? {
        assert names[i] in texts;
        var k :| 0 <= k < |texts| && texts[k] == names[i];
        assert Matches(options[k], names[i]);
        assert FirstMatch(options, names[i]) != -1;
      }
    }
  }

  /** The name a matcher returns is mapped back to the first option carrying it
      as `labelInList` OR as `label`, which need not be the option whose filter
      text it was: here the matcher picks "p", the text of the second option,
      and the result is the first option, whose plain `label` is "p". */
  lemma NameResolvesToEarlierLabel()
    ensures var first := Item(Str("1"), "p", Some("z"), false);
            var second := Item(Str("2"), "m", Some("p"), false);
            var matcher: Matcher := (texts, q) => ["p"];
            && FilterTexts([first, second]) == ["z", "p"]
            && Search([first, second], "x", matcher) == [Some(first)]
  {
    var first := Item(Str("1"), "p", Some("z"), false);
    var second := Item(Str("2"), "m", Some("p"), false);
    var matcher: Matcher := (texts, q) => ["p"];
    TrimEmptyIff("x");
    assert Matches(first, "p");
    assert FilterTexts([first, second]) == ["z", "p"];
  }
}
