/** The values the option list works on: option records, option values and
    the callbacks it fires, recorded as events. */
module Model {
  import opened Js

  /** An option's `value`: a string or a (whole) number. */
  datatype Value = Str(s: string) | Num(n: int)

  /** JavaScript truthiness of a value: `""` and `0` are falsy. */
  predicate Truthy(v: Value) {
    match v
    case Str(s) => s != ""
    case Num(n) => n != 0
  }

  /** One entry of the `options` prop. `displayLabel` is the source's `label`
      (a reserved word in Dafny); `labelInList`, when present, is the
      text the filter matches against instead of `label`. */
  datatype Item = Item(value: Value, displayLabel: string, labelInList: Option<string>, disabled: bool)

  /** One entry of the filtered list: an option, or `undefined` when the
      filter returned a name no option carries. */
  type Entry = Option<Item>

  /** A call the component makes to one of its callback props. `onSelect`
      can be handed `undefined` (Enter with nothing highlighted), so `Select`
      carries an entry. `Close` stands for the `close` prop, which this
      component receives but never calls. */
  datatype Event = Select(entry: Entry) | Deselect(item: Item) | FilterChange(query: string) | Close
}
