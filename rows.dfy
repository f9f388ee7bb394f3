/** What `render` hands the virtualized list: the scroll hint and, per
    visible index, the descriptor passed to `renderItem`. Layout numbers
    (heights, sizes, overscan) and the bound callbacks are not modelled here;
    the callbacks are the component's `HandleSelect`/`HandleDeselect`. */
module Rows {
  import opened Js
  import opened Model
  import Selection

  /** The data `renderItem` receives for one row (`key` is the option value). */
  datatype Row = Row(isHighlighted: bool, key: Value, displayLabel: string,
                     isSelectable: bool, isSelected: bool, disabled: bool)

  /** The `renderItem` callback for row `index`. Reading `.value` of an
      `undefined` entry throws. */
  function RowAt(entries: seq<Entry>, index: nat, currentIndex: int, selected: seq<Value>, isMultiSelect: bool): (r: Outcome<Row>)
    requires index < |entries|
    ensures r.ThrowsTypeError? <==> entries[index].None?
    ensures r.Returns? ==> var item := entries[index].value;
              && r.value.key == item.value && r.value.displayLabel == item.displayLabel
              && r.value.disabled == item.disabled
              && (r.value.isHighlighted <==> index == currentIndex)
              && (r.value.isSelected <==> item.value in selected && Truthy(item.value))
              && (r.value.isSelectable <==> !(item.value in selected && Truthy(item.value)) || isMultiSelect)
  {
    match entries[index]
    case None => ThrowsTypeError
    case Some(item) =>
      var isSelected := Selection.IsSelected(selected, Some(item)).value;
      Returns(Row(index == currentIndex, item.value, item.displayLabel,
                  !isSelected || isMultiSelect, isSelected, item.disabled))
  }

  /** All rows, one per filtered entry (`itemCount={options.length}`). */
  function Rows(entries: seq<Entry>, currentIndex: int, selected: seq<Value>, isMultiSelect: bool): (rows: seq<Outcome<Row>>)
    ensures |rows| == |entries|
    ensures forall i :: 0 <= i < |entries| ==> rows[i] == RowAt(entries, i, currentIndex, selected, isMultiSelect)
  {
    seq(|entries|, i requires 0 <= i < |entries| => RowAt(entries, i, currentIndex, selected, isMultiSelect))
  }

  /** Exactly one rendered row is highlighted when the highlight is in range
      and its entry is defined, and none otherwise. */
  lemma HighlightedRows(entries: seq<Entry>, currentIndex: int, selected: seq<Value>, isMultiSelect: bool)
    ensures var rows := Rows(entries, currentIndex, selected, isMultiSelect);
            forall i :: 0 <= i < |rows| && rows[i].Returns? && rows[i].value.isHighlighted ==> i == currentIndex
    ensures var rows := Rows(entries, currentIndex, selected, isMultiSelect);
            0 <= currentIndex < |entries| && entries[currentIndex].Some? ==>
              rows[currentIndex].Returns? && rows[currentIndex].value.isHighlighted
  {
  }

  /** `scrollToIndex = currentIndex === -1 ? 0 : currentIndex`, passed to the
      list only when truthy: the list is asked to scroll exactly when the
      highlight is neither absent nor the first row. */
  function ScrollToIndex(currentIndex: int): (r: Option<int>)
    ensures r.Some? <==> currentIndex != -1 && currentIndex != 0
    ensures r.Some? ==> r.value == currentIndex
  {
    var scrollToIndex := if currentIndex == -1 then 0 else currentIndex;
    if scrollToIndex != 0 then Some(scrollToIndex) else None
  }
}
