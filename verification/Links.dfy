/** Sequences of linked elements: an element is a number, and NULL is none. */
module Links {

  const NULL: int := -1

  /** What the element at position i is linked to. */
  function After(s: seq<int>, i: nat): int
    requires i < |s|
  {
    if i + 1 < |s| then s[i + 1] else NULL
  }

  function First(s: seq<int>): int {
    if s == [] then NULL else s[0]
  }
}
