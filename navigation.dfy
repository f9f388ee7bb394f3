/** Highlight movement: the state updaters `handleArrowUp` and
    `handleArrowDown` hand to `setState`, over a filtered list of a given
    length. Both wrap around; neither clamps an index that is already past
    the end of the list. */
module Navigation {

  /** The `keyCode`s `handleKeyDown` reacts to. */
  const KeyArrowUp := 38
  const KeyArrowDown := 40
  const KeyEnter := 13

  /** `prevState.currentIndex - 1`, wrapping to `length - 1` below zero. */
  function Up(currentIndex: int, length: nat): (next: int)
    ensures currentIndex >= -1 ==> next >= -1
    ensures length > 0 && -1 <= currentIndex <= length ==> 0 <= next < length
    ensures currentIndex > length ==> next == currentIndex - 1
  {
    var next := currentIndex - 1;
    if next < 0 then length - 1 else next
  }

  /** `prevState.currentIndex + 1`, wrapping to 0 when it equals `length`. */
  function Down(currentIndex: int, length: nat): (next: int)
    ensures currentIndex >= -1 ==> next >= 0
    ensures length > 0 && -1 <= currentIndex < length ==> 0 <= next < length
    ensures currentIndex >= length ==> next == currentIndex + 1
  {
    var next := currentIndex + 1;
    if next == length then 0 else next
  }

  /** From no highlight (-1), down goes to the first row and up to the last;
      on an empty list that is 0 and -1. */
  lemma FromNoHighlight(length: nat)
    ensures Down(-1, length) == 0
    ensures Up(-1, length) == length - 1
  {
  }

  /** Within a non-empty list, one step down and one step up undo each other,
      in either order, also across the wrap-around. */
  lemma UpDownInverse(i: int, length: nat)
    requires 0 <= i < length
    ensures Up(Down(i, length), length) == i
    ensures Down(Up(i, length), length) == i
  {
  }

  /** The highlight after `k` presses of arrow-down. */
  function DownTimes(i: int, length: nat, k: nat): int {
    if k == 0 then i else Down(DownTimes(i, length, k - 1), length)
  }

  /** The highlight after `k` presses of arrow-up. */
  function UpTimes(i: int, length: nat, k: nat): int {
    if k == 0 then i else Up(UpTimes(i, length, k - 1), length)
  }

  /** Arrow-down cycles through a non-empty list: up to `length` presses from
      an in-range highlight `i` land on `i + k`, wrapped once past the end, so
      `length` presses come back to `i`. */
  lemma {:induction false} DownTimesCycles(i: int, length: nat, k: nat)
    requires 0 <= i < length && k <= length
    ensures DownTimes(i, length, k) == if i + k < length then i + k else i + k - length
  {
    if k > 0 {
      DownTimesCycles(i, length, k - 1);
    }
  }

  /** Arrow-up cycles the other way: up to `length` presses from `i` land on
      `i - k`, wrapped once below zero. */
  lemma {:induction false} UpTimesCycles(i: int, length: nat, k: nat)
    requires 0 <= i < length && k <= length
    ensures UpTimes(i, length, k) == if i - k >= 0 then i - k else i - k + length
  {
    if k > 0 {
      UpTimesCycles(i, length, k - 1);
    }
  }

  /** An index already past the end of the list, as left behind when the
      filter narrows the list, is never brought back into range by arrow-down:
      each press moves it one further. */
  lemma {:induction false} StaleIndexKeepsGrowing(i: int, length: nat, k: nat)
    requires i >= length
    ensures DownTimes(i, length, k) == i + k
  {
    if k > 0 {
      StaleIndexKeepsGrowing(i, length, k - 1);
    }
  }
}
