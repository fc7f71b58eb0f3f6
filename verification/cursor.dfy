/**
 The navigation cursor of the viva tab: one integer index into the filtered
 question list of length n. It is clamped whenever the list may have shrunk,
 and the five buttons move it: First, Previous, Next, Last and Random.
 */
module Cursor {

  /** A navigation button. `Random` carries the value the random source drew
      for this press. */
  datatype Action = First | Previous | Next | Last | Random(roll: int)

  /** The random source draws uniformly from [0, n-1] (both ends inclusive);
      only that range is modelled, not the distribution. */
  predicate Drawable(a: Action, n: nat) {
    a.Random? ==> 0 <= a.roll < n
  }

  function Min(a: int, b: int): int { if a <= b then a else b }
  function Max(a: int, b: int): int { if a >= b then a else b }

  /** Pulls a stored index back inside a list of length n when the list has
      shrunk below it. */
  function Clamp(index: int, n: nat): (i: int)
    ensures i <= index
    ensures i == index <==> index < n
    ensures index >= n ==> i == n - 1
    ensures 0 <= index && 0 < n ==> 0 <= i < n
  {
    if index >= n then n - 1 else index
  }

  /** The index after pressing `a` on a list of n > 0 questions (the buttons
      are disabled when the list is empty). Previous and Next saturate at the
      ends instead of wrapping. */
  function Apply(index: int, n: nat, a: Action): (j: int)
    requires n > 0
    requires Drawable(a, n)
    ensures 0 <= index < n ==> 0 <= j < n
    ensures a.First? ==> j == 0
    ensures a.Last? ==> j == n - 1
    ensures a.Random? ==> j == a.roll
    ensures a.Previous? && 0 <= index < n ==> j == Max(index - 1, 0)
    ensures a.Next? && 0 <= index < n ==> j == Min(index + 1, n - 1)
  {
    match a
    case First => 0
    case Previous => if index > 0 then index - 1 else index
    case Next => if index < n - 1 then index + 1 else index
    case Last => n - 1
    case Random(roll) => roll
  }

  /** Clamping twice is clamping once. */
  lemma ClampIdempotent(index: int, n: nat)
    ensures Clamp(Clamp(index, n), n) == Clamp(index, n)
  {
  }

  /** Previous at the first question and Next at the last one do nothing. */
  lemma SaturatingEnds(n: nat)
    requires n > 0
    ensures Apply(0, n, Previous) == 0
    ensures Apply(n - 1, n, Next) == n - 1
  {
  }

  /** Away from the ends, Previous undoes Next and Next undoes Previous. */
  lemma PreviousUndoesNext(index: int, n: nat)
    requires 0 <= index < n
    ensures index < n - 1 ==> Apply(Apply(index, n, Next), n, Previous) == index
    ensures 0 < index ==> Apply(Apply(index, n, Previous), n, Next) == index
  {
  }

  /** With a single question, every button lands on it. */
  lemma SingleQuestion(a: Action)
    requires Drawable(a, 1)
    ensures Apply(0, 1, a) == 0
  {
  }

  /** Every index a Random press can land on, over all draws of the source. */
  function RandomOutcomes(index: int, n: nat): set<int>
    requires n > 0
  {
    set roll | 0 <= roll < n :: Apply(index, n, Random(roll))
  }

  /** Random can land on every question and on nothing else. */
  lemma RandomReachesExactlyTheList(index: int, n: nat)
    requires n > 0
    ensures forall k :: k in RandomOutcomes(index, n) <==> 0 <= k < n
  {
    forall k | 0 <= k < n ensures k in RandomOutcomes(index, n) {
      assert Apply(index, n, Random(k)) == k;
    }
  }

  /** Pressing `a` m times in a row. */
  function Repeat(index: int, n: nat, a: Action, m: nat): (j: int)
    requires n > 0
    requires Drawable(a, n)
    ensures 0 <= index < n ==> 0 <= j < n
    decreases m
  {
    if m == 0 then index else Repeat(Apply(index, n, a), n, a, m - 1)
  }

  /** m presses of Next move the cursor m questions on, stopping at the last. */
  lemma {:induction false} NextRepeated(index: int, n: nat, m: nat)
    requires 0 <= index < n
    ensures Repeat(index, n, Next, m) == Min(index + m, n - 1)
    decreases m
  {
    if m > 0 {
      NextRepeated(Apply(index, n, Next), n, m - 1);
    }
  }

  /** n - 1 presses of Next from anywhere reach the question Last jumps to. */
  lemma NextReachesLast(index: int, n: nat)
    requires 0 <= index < n
    ensures Repeat(index, n, Next, n - 1) == Apply(index, n, Last)
  {
    NextRepeated(index, n, n - 1);
  }

  /** m presses of Previous move the cursor m questions back, stopping at the
      first. */
  lemma {:induction false} PreviousRepeated(index: int, n: nat, m: nat)
    requires 0 <= index < n
    ensures Repeat(index, n, Previous, m) == Max(index - m, 0)
    decreases m
  {
    if m > 0 {
      PreviousRepeated(Apply(index, n, Previous), n, m - 1);
    }
  }

  /** n - 1 presses of Previous from anywhere reach the question First jumps
      to. */
  lemma PreviousReachesFirst(index: int, n: nat)
    requires 0 <= index < n
    ensures Repeat(index, n, Previous, n - 1) == Apply(index, n, First)
  {
    PreviousRepeated(index, n, n - 1);
  }
}
