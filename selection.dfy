/** Selection queries: `isSelected` over the component's copy of `selected`,
    and `getCurrentIndex`, the position of the last selected value. */
module Selection {
  import opened Js
  import opened Model

  /** `selected.find(selectedItem => selectedItem === value)`: the first
      element equal to `value`, or `undefined`. */
  function FindValue(selected: seq<Value>, value: Value): (r: Option<Value>)
    ensures r.None? <==> value !in selected
    ensures r.Some? ==> r.value == value
  {
    if selected == [] then None
    else if selected[0] == value then Some(selected[0])
    else FindValue(selected[1..], value)
  }

  /** `Boolean(selected.find(selectedItem => selectedItem === item.value))`.
      For an option, the value must occur in `selected` AND be truthy, so an
      option whose value is `""` or `0` never reads as selected. For
      `undefined`, the callback's `item.value` throws, but `find` calls it only
      on a non-empty array: an empty `selected` gives false. */
  function IsSelected(selected: seq<Value>, entry: Entry): (r: Outcome<bool>)
    ensures entry.None? ==> (r.Returns? <==> selected == []) && (r.Returns? ==> !r.value)
    ensures entry.Some? ==> r.Returns? && (r.value <==> entry.value.value in selected && Truthy(entry.value.value))
  {
    match entry
    case None => if selected == [] then Returns(false) else ThrowsTypeError
    case Some(item) =>
      match FindValue(selected, item.value)
      case None => Returns(false)
      case Some(v) => Returns(Truthy(v))
  }

  /** A falsy value reads as not selected even though it is in `selected`. */
  lemma FalsyValueNeverSelected(selected: seq<Value>, item: Item)
    requires item.value in selected && !Truthy(item.value)
    ensures IsSelected(selected, Some(item)) == Returns(false)
  {
  }

  /** `selected[selected.length - 1]`, `undefined` for an empty array. */
  function LastSelected(selected: seq<Value>): (r: Option<Value>)
    ensures r.None? <==> selected == []
    ensures r.Some? ==> r.value == selected[|selected| - 1]
  {
    if selected == [] then None else Some(selected[|selected| - 1])
  }

  /** `entries.findIndex(option => option.value === target)`. The callback
      reads `.value`, so reaching an `undefined` entry before a match throws.
      When it returns, the result is the first entry carrying `target`, or -1
      when no entry does. */
  function IndexOfValue(entries: seq<Entry>, target: Option<Value>): (r: Outcome<int>)
    ensures r.Returns? ==> -1 <= r.value < |entries|
    ensures r.Returns? ==> forall j :: 0 <= j < |entries| && (r.value == -1 || j < r.value) ==>
                             entries[j].Some? && Some(entries[j].value.value) != target
    ensures r.Returns? && r.value >= 0 ==> entries[r.value].Some? && Some(entries[r.value].value.value) == target
    ensures r.ThrowsTypeError? <==> exists k :: 0 <= k < |entries| && entries[k].None? &&
                                     forall j :: 0 <= j < k ==> entries[j].Some? && Some(entries[j].value.value) != target
  {
    if entries == [] then Returns(-1)
    else match entries[0]
      case None => ThrowsTypeError
      case Some(o) =>
        if Some(o.value) == target then Returns(0)
        else match IndexOfValue(entries[1..], target)
          case ThrowsTypeError => ThrowsTypeError
          case Returns(k) => if k == -1 then Returns(-1) else Returns(k + 1)
  }

  /** With no `undefined` entries, `getCurrentIndex` never throws; an empty
      `selected` then yields -1. */
  lemma IndexOfValueTotal(entries: seq<Entry>, target: Option<Value>)
    requires forall j :: 0 <= j < |entries| ==> entries[j].Some?
    ensures IndexOfValue(entries, target).Returns?
    ensures target.None? ==> IndexOfValue(entries, target) == Returns(-1)
  {
  }
}
