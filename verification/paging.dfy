/**
 * The paginated selector's arithmetic: a page shows five mods starting
 * at the offset; selecting scrolls forward only as far as needed; the
 * first nine mods of the whole list get a numeric hotkey.
 */
module Paging {
  import opened Wrappers

  /** Number of mods shown side by side. */
  const PageSize := 5
  /** Number of digit hotkeys, 1 to 9. */
  const HotkeyCount := 9

  /**
   * The offset after selecting the mod at `index` (-1 when it is not in
   * the list): scroll forward so that it is the last entry of the page,
   * but only when it lies beyond the page.
   */
  function ScrollOffset(index: int, offset: int): (r: int)
    ensures index - r <= PageSize - 1
    ensures offset <= r
    ensures r != offset ==> r == index - (PageSize - 1)
    ensures index - offset <= PageSize - 1 ==> r == offset
  {
    if index - offset > PageSize - 1 then index - (PageSize - 1) else offset
  }

  /** The "previous" button is shown only while the page does not start at the first mod. */
  predicate PrevVisible(offset: int) {
    offset > 0
  }

  /** The "next" button is shown only while mods follow the page. */
  predicate NextVisible(offset: int, count: int) {
    offset + PageSize < count
  }

  /**
   * The offsets the selector can reach: never negative, and past zero only
   * while a full page fits.
   */
  predicate ReachableOffset(offset: int, count: int) {
    0 <= offset && (offset == 0 || offset + PageSize <= count)
  }

  /** The number of mods on the page at `offset`. */
  function PageLength(offset: int, count: int): (r: nat)
    requires 0 <= offset
    ensures r <= PageSize
    ensures offset + r <= count || r == 0
    ensures offset < count ==> r == PageSize || offset + r == count
    ensures offset >= count ==> r == 0
  {
    if offset >= count then 0
    else if count - offset < PageSize then count - offset
    else PageSize
  }

  /** `Keycode.NUMBER_1 + j` for the first nine mods of the list, no hotkey after that. */
  function HotkeyDigit(j: nat): Option<nat> {
    if j < HotkeyCount then Some(1 + j) else None
  }

  /** Every reachable offset shows a full page, or the whole list when it is shorter. */
  lemma ReachablePageIsFull(offset: int, count: nat)
    requires ReachableOffset(offset, count)
    ensures PageLength(offset, count) == if count < PageSize then count else PageSize
  {
  }

  /** Selecting keeps the offset reachable. */
  lemma ScrollKeepsReachable(index: int, offset: int, count: int)
    requires ReachableOffset(offset, count) && -1 <= index < count
    ensures ReachableOffset(ScrollOffset(index, offset), count)
  {
  }

  /** Paging back when the button is shown keeps the offset reachable. */
  lemma PrevKeepsReachable(offset: int, count: int)
    requires ReachableOffset(offset, count) && PrevVisible(offset)
    ensures ReachableOffset(offset - 1, count)
  {
  }

  /** Paging forward when the button is shown keeps the offset reachable. */
  lemma NextKeepsReachable(offset: int, count: int)
    requires ReachableOffset(offset, count) && NextVisible(offset, count)
    ensures ReachableOffset(offset + 1, count)
  {
  }
}
