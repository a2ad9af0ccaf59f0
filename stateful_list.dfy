/**
 * The selection cursor of the dashboard: a fixed sequence of items and an
 * optional selected index that `Next` and `Previous` move with wraparound
 * (src/main.rs:2-42).
 *
 * Indices are `usize` in the source. They are modelled as `nat`: the only
 * increment, `i + 1`, happens when `i < len - 1`, so it cannot overflow.
 * The one subtraction that can underflow, `len - 1` on an empty list, panics
 * in a debug build; the methods require exactly that it is not reached.
 */
module ListCursor {

  datatype Option<T> = None | Some(value: T)

  /** The selection is absent or names an item. */
  predicate InRange(selected: Option<nat>, len: nat) {
    selected.None? || selected.value < len
  }

  /** `next` evaluates `len - 1` (and so panics when the list is empty)
      exactly when something is selected. */
  predicate NextPanics(selected: Option<nat>, len: nat) {
    selected.Some? && len == 0
  }

  /** `previous` evaluates `len - 1` only when index 0 is selected. */
  predicate PreviousPanics(selected: Option<nat>, len: nat) {
    selected == Some(0) && len == 0
  }

  /** The index `next` selects. */
  function NextIndex(selected: Option<nat>, len: nat): (r: nat)
    requires !NextPanics(selected, len)
    ensures len > 0 ==> r < len
    ensures selected.None? ==> r == 0
    ensures selected.Some? && selected.value < len ==> r == (selected.value + 1) % len
  {
    match selected
    case Some(i) => if i >= len - 1 then 0 else i + 1
    case None => 0
  }

  /** The index `previous` selects. */
  function PreviousIndex(selected: Option<nat>, len: nat): (r: nat)
    requires !PreviousPanics(selected, len)
    ensures InRange(selected, len) && len > 0 ==> r < len
    ensures selected.None? ==> r == 0
    ensures selected.Some? && selected.value < len ==> r == (selected.value + len - 1) % len
  {
    match selected
    case Some(i) => if i == 0 then len - 1 else i - 1
    case None => 0
  }

  /** From a valid selection, `previous` undoes `next`. */
  lemma PreviousUndoesNext(i: nat, len: nat)
    requires i < len
    ensures PreviousIndex(Some(NextIndex(Some(i), len)), len) == i
  {
  }

  /** From a valid selection, `next` undoes `previous`. */
  lemma NextUndoesPrevious(i: nat, len: nat)
    requires i < len
    ensures NextIndex(Some(PreviousIndex(Some(i), len)), len) == i
  {
  }

  /** On an empty list the code has no guard. The first clause records, by
      the definitions of `NextPanics` and `PreviousPanics`, that `next` with
      a selection and `previous` from index 0 reach the underflowing
      `len - 1`; the other two say that from no selection both moves select
      index 0, which names no item. */
  lemma EmptyListIsUnguarded(i: nat)
    ensures NextPanics(Some(i), 0) && PreviousPanics(Some(0), 0)
    ensures !InRange(Some(NextIndex(None, 0)), 0)
    ensures !InRange(Some(PreviousIndex(None, 0)), 0)
  {
  }

  /** The selection after `k` calls of `next`. */
  function NextTimes(selected: Option<nat>, len: nat, k: nat): (r: Option<nat>)
    requires len > 0
    ensures k > 0 ==> r.Some? && r.value < len
  {
    if k == 0 then selected else Some(NextIndex(NextTimes(selected, len, k - 1), len))
  }

  /** The selection after `k` calls of `previous`. */
  function PreviousTimes(selected: Option<nat>, len: nat, k: nat): (r: Option<nat>)
    requires len > 0
    ensures InRange(selected, len) ==> InRange(r, len)
  {
    if k == 0 then selected else Some(PreviousIndex(PreviousTimes(selected, len, k - 1), len))
  }

  lemma MulAtLeast(n: int, k: int)
    requires n > 0 && k >= 1
    ensures n * k >= n
  {
    if k > 1 {
      MulAtLeast(n, k - 1);
      assert n * k == n * (k - 1) + n;
    }
  }

  /** Euclidean remainder is the unique `r` in `[0, n)` with `a == q * n + r`. */
  lemma ModUnique(a: int, n: int, q: int, r: int)
    requires n > 0 && 0 <= r < n && a == q * n + r
    ensures a % n == r
  {
    var k := q - a / n;
    assert a == n * (a / n) + a % n;
    assert n * k == a % n - r;
    if k >= 1 {
      MulAtLeast(n, k);
    } else if k <= -1 {
      MulAtLeast(n, -k);
    }
  }

  lemma ModSuccessor(a: int, n: nat)
    requires n > 0
    ensures (a % n + 1) % n == (a + 1) % n
  {
    var q, r := a / n, a % n;
    if r + 1 < n {
      ModUnique(a + 1, n, q, r + 1);
      ModUnique(r + 1, n, 0, r + 1);
    } else {
      ModUnique(a + 1, n, q + 1, 0);
      ModUnique(r + 1, n, 1, 0);
    }
  }

  lemma ModPredecessor(a: int, n: nat)
    requires n > 0
    ensures (a % n + n - 1) % n == (a - 1) % n
  {
    var q, r := a / n, a % n;
    if r == 0 {
      ModUnique(a - 1, n, q - 1, n - 1);
      ModUnique(n - 1, n, 0, n - 1);
    } else {
      ModUnique(a - 1, n, q, r - 1);
      ModUnique(r + n - 1, n, 1, r - 1);
    }
  }

  /** `k` calls of `next` from index `i` move forward `k` places, modulo the length. */
  lemma {:induction false} NextTimesAdvances(i: nat, len: nat, k: nat)
    requires i < len
    ensures NextTimes(Some(i), len, k) == Some((i + k) % len)
  {
    if k > 0 {
      NextTimesAdvances(i, len, k - 1);
      ModSuccessor(i + k - 1, len);
    }
  }

  /** Calling `next` once per item returns the selection to where it started. */
  lemma NextTimesLengthIsIdentity(i: nat, len: nat)
    requires i < len
    ensures NextTimes(Some(i), len, len) == Some(i)
  {
    NextTimesAdvances(i, len, len);
    ModUnique(i + len, len, 1, i);
  }

  /** `k` calls of `previous` from index `i` move back `k` places, modulo the length. */
  lemma {:induction false} PreviousTimesRetreats(i: nat, len: nat, k: nat)
    requires i < len
    ensures PreviousTimes(Some(i), len, k) == Some((i - k) % len)
  {
    if k == 0 {
      ModUnique(i, len, 0, i);
    } else {
      PreviousTimesRetreats(i, len, k - 1);
      ModPredecessor(i - (k - 1), len);
    }
  }

  /** Calling `previous` once per item returns the selection to where it started. */
  lemma PreviousTimesLengthIsIdentity(i: nat, len: nat)
    requires i < len
    ensures PreviousTimes(Some(i), len, len) == Some(i)
  {
    PreviousTimesRetreats(i, len, len);
    ModUnique(i - len, len, -1, i);
  }

  /** The 24-item walk: from no selection, 24 calls of `next` end on the last
      item and a 25th wraps to the first; `previous` from the first item
      wraps to the last. */
  lemma TwentyFourItemWalk()
    ensures NextTimes(None, 24, 1) == Some(0)
    ensures NextTimes(None, 24, 24) == Some(23)
    ensures NextTimes(None, 24, 25) == Some(0)
    ensures PreviousTimes(Some(0), 24, 1) == Some(23)
  {
    NextTimesShift(None, 24, 1, 23);
    NextTimesAdvances(0, 24, 23);
    NextTimesShift(None, 24, 1, 24);
    NextTimesLengthIsIdentity(0, 24);
  }

  /** `a + b` calls of `next` are `a` calls followed by `b` more. */
  lemma {:induction false} NextTimesShift(s: Option<nat>, len: nat, a: nat, b: nat)
    requires len > 0
    ensures NextTimes(s, len, a + b) == NextTimes(NextTimes(s, len, a), len, b)
  {
    if b > 0 {
      NextTimesShift(s, len, a, b - 1);
    }
  }

  /**
   * The cursor itself. The source keeps the selection inside a `ListState`
   * of the rendering library; only its selected index is modelled.
   */
  class StatefulList<T> {
    const items: seq<T>
    var selected: Option<nat>

    /** `with_items`: the given items, nothing selected. */
    constructor WithItems(items: seq<T>)
      ensures this.items == items
      ensures selected == None
    {
      this.items := items;
      selected := None;
    }

    method Next()
      requires !NextPanics(selected, |items|)
      modifies this`selected
      ensures selected == Some(NextIndex(old(selected), |items|))
      ensures |items| > 0 ==> InRange(selected, |items|)
    {
      selected := Some(NextIndex(selected, |items|));
    }

    method Previous()
      requires !PreviousPanics(selected, |items|)
      modifies this`selected
      ensures selected == Some(PreviousIndex(old(selected), |items|))
      ensures old(InRange(selected, |items|)) && |items| > 0 ==> InRange(selected, |items|)
    {
      selected := Some(PreviousIndex(selected, |items|));
    }
  }
}
