/**
 * Arrow-key navigation over the rendered rows (`handleKeyNavigation`): the
 * selection is an optional row number and moves with wraparound.
 */
module Navigation {
  import opened Wrappers

  /** ArrowDown over `n` rows: from nothing to the first row, otherwise
      `(i + 1) % n`. */
  function Down(selected: Option<nat>, n: nat): (r: Option<nat>)
    requires selected.Some? ==> selected.value < n
    ensures r.Some? ==> r.value < n
    ensures r.None? <==> n == 0
    ensures selected.None? && n > 0 ==> r == Some(0)
    ensures selected.Some? ==>
      r == Some(if selected.value == n - 1 then 0 else selected.value + 1)
  {
    if selected.None? then (if n > 0 then Some(0) else None)
    else Some((selected.value + 1) % n)
  }

  /** ArrowUp over `n` rows: from nothing to the last row, otherwise
      `(i - 1 + n) % n` (never negative, so the remainder agrees with JavaScript's). */
  function Up(selected: Option<nat>, n: nat): (r: Option<nat>)
    requires selected.Some? ==> selected.value < n
    ensures r.Some? ==> r.value < n
    ensures r.None? <==> n == 0
    ensures selected.None? && n > 0 ==> r == Some(n - 1)
    ensures selected.Some? ==>
      r == Some(if selected.value == 0 then n - 1 else selected.value - 1)
  {
    if selected.None? then (if n > 0 then Some(n - 1) else None)
    else Some((selected.value - 1 + n) % n)
  }

  /** ArrowUp undoes ArrowDown and ArrowDown undoes ArrowUp on a selected row. */
  lemma UpUndoesDown(i: nat, n: nat)
    requires i < n
    ensures Up(Down(Some(i), n), n) == Some(i)
    ensures Down(Up(Some(i), n), n) == Some(i)
  {
  }

  /** The selection after pressing ArrowDown `k` times. */
  function DownTimes(selected: Option<nat>, n: nat, k: nat): (r: Option<nat>)
    requires selected.Some? ==> selected.value < n
    ensures r.Some? ==> r.value < n
  {
    if k == 0 then selected else Down(DownTimes(selected, n, k - 1), n)
  }

  /** Starting with nothing selected, the first ArrowDown selects the first
      row and each further one the next row, until the press after the last
      row wraps back to the first: k + 1 presses select row k, and n + 1
      presses select row 0 again. */
  lemma {:induction false} DownCycles(n: nat, k: nat)
    requires 0 < n && k <= n
    ensures DownTimes(None, n, k + 1) == Some(if k == n then 0 else k)
  {
    if k > 0 {
      DownCycles(n, k - 1);
    }
  }
}
