/**
 * The index arithmetic of `handleKeyDown`: from the focused button's position
 * `current` among the `count` visible tabs, the arrow keys move one step with
 * wrap-around and Home/End jump to the ends; any other key is ignored. The
 * operands of JavaScript's `%` here are never negative, where it agrees with
 * Dafny's `%`.
 */
module TabsKeyboard {
  import opened Wrappers

  /** The keys `handleKeyDown` reacts to (and calls `preventDefault` for). */
  predicate IsNavigationKey(key: string) {
    key == "ArrowRight" || key == "ArrowLeft" || key == "Home" || key == "End"
  }

  /** `nextIndex`, or `None` (JavaScript `null`) for a key that is not handled. */
  function NextIndex(key: string, current: int, count: int): (r: Option<int>)
    requires 0 <= current < count
    ensures r.Some? <==> IsNavigationKey(key)
    ensures r.Some? ==> 0 <= r.value < count
    ensures key == "ArrowRight" ==> r == Some(if current == count - 1 then 0 else current + 1)
    ensures key == "ArrowLeft" ==> r == Some(if current == 0 then count - 1 else current - 1)
    ensures key == "Home" ==> r == Some(0)
    ensures key == "End" ==> r == Some(count - 1)
  {
    if key == "ArrowRight" then
      ModUnique(current + 1, count, if current == count - 1 then 1 else 0, if current == count - 1 then 0 else current + 1);
      Some((current + 1) % count)
    else if key == "ArrowLeft" then
      ModUnique(current - 1 + count, count, if current == 0 then 0 else 1, if current == 0 then count - 1 else current - 1);
      Some((current - 1 + count) % count)
    else if key == "Home" then Some(0)
    else if key == "End" then Some(count - 1)
    else None
  }

  /** Euclidean remainder is determined by any quotient/remainder split of `a`. */
  lemma ModUnique(a: int, n: int, q: int, r: int)
    requires n > 0 && 0 <= r < n && a == q * n + r
    ensures a % n == r
  {
    var q0, r0 := a / n, a % n;
    var d := q - q0;
    assert d * n == r0 - r by {
      assert a == q0 * n + r0;
      assert q * n - q0 * n == (q - q0) * n;
    }
    if d > 0 {
      MulAtLeast(d, n);
    } else if d < 0 {
      MulAtLeast(-d, n);
    }
  }

  /** A positive multiple of `n` is at least `n`. */
  lemma MulAtLeast(d: int, n: int)
    requires d >= 1 && n > 0
    ensures d * n >= n
  {
    assert d * n == (d - 1) * n + n;
    assert (d - 1) * n >= 0;
  }

  /** The ArrowLeft index map inverts the ArrowRight index map on `[0, count)`. */
  lemma LeftUndoesRight(current: int, count: int)
    requires 0 <= current < count
    ensures NextIndex("ArrowLeft", NextIndex("ArrowRight", current, count).value, count) == Some(current)
  {
  }

  /** The ArrowRight index map inverts the ArrowLeft index map on `[0, count)`. */
  lemma RightUndoesLeft(current: int, count: int)
    requires 0 <= current < count
    ensures NextIndex("ArrowRight", NextIndex("ArrowLeft", current, count).value, count) == Some(current)
  {
  }

  /**
   * The ArrowRight index map applied `presses` times. The key handler takes
   * the index of the button that received the key and never moves focus, so
   * this is what the user reaches only by moving focus onto the newly
   * selected tab before each press; pressing ArrowRight again on the same
   * button selects the same next tab (see `TabsScenarios.SecondArrowRightOnSameButton`).
   */
  function PressRight(current: int, count: int, presses: nat): (r: int)
    requires 0 <= current < count
    ensures 0 <= r < count
    decreases presses
  {
    if presses == 0 then current
    else PressRight(NextIndex("ArrowRight", current, count).value, count, presses - 1)
  }

  /** Applying the ArrowRight index map `presses` times moves `presses` places on, modulo `count`. */
  lemma {:induction false} PressRightMod(current: int, count: int, presses: nat)
    requires 0 <= current < count
    ensures PressRight(current, count, presses) == (current + presses) % count
    decreases presses
  {
    if presses == 0 {
      ModUnique(current, count, 0, current);
    } else {
      var next := NextIndex("ArrowRight", current, count).value;
      assert next == if current == count - 1 then 0 else current + 1;
      assert PressRight(current, count, presses) == PressRight(next, count, presses - 1);
      PressRightMod(next, count, presses - 1);
      ModStep(current, count, presses);
    }
  }

  /** One step of the modular sum: moving one place first changes nothing in the end. */
  lemma ModStep(current: int, count: int, presses: nat)
    requires 0 <= current < count && presses > 0
    ensures ((if current == count - 1 then 0 else current + 1) + (presses - 1)) % count
            == (current + presses) % count
  {
    if current == count - 1 {
      var x := presses - 1;
      assert current + presses == x + count;
      ModUnique(x + count, count, x / count + 1, x % count);
    } else {
      assert current + 1 + (presses - 1) == current + presses;
    }
  }

  /** Applying the ArrowRight index map once per visible tab returns to the starting index. */
  lemma FullCycle(current: int, count: int)
    requires 0 <= current < count
    ensures PressRight(current, count, count) == current
  {
    PressRightMod(current, count, count);
    ModUnique(current + count, count, 1, current);
  }

  /** On five visible tabs: End reaches the fifth, ArrowRight on it wraps to the first, ArrowLeft back. */
  lemma FiveTabs()
    ensures NextIndex("End", 0, 5) == Some(4)
    ensures NextIndex("ArrowRight", 4, 5) == Some(0)
    ensures NextIndex("ArrowLeft", 0, 5) == Some(4)
    ensures NextIndex("Enter", 2, 5) == None
  {
  }
}
