/** How a Python `list` reads a subscript. The linear collection, the stack and the
    heap all index plain Python lists, so they share these rules. */
module PyLists {
  import opened Wrappers

  /** The position a subscript `i` denotes in a list of length `n`: a negative
      subscript counts from the end, and anything outside `-n <= i < n` raises
      IndexError (None here). */
  function ResolveIndex(n: nat, i: int): (r: Option<nat>)
    ensures r.Some? <==> -(n as int) <= i < n
    ensures r.Some? ==> r.value < n && (r.value - i) % n == 0
  {
    if 0 <= i < n then Some(i)
    else if -(n as int) <= i < 0 then Some(i + n)
    else None
  }

  /** The position `list.insert(i, v)` puts `v` at in a list of length `n`:
      a negative `i` counts from the end, and the result is clamped to `0..n`. */
  function InsertPosition(n: nat, i: int): (p: nat)
    ensures p <= n
    ensures 0 <= i <= n ==> p == i
    ensures -(n as int) <= i < 0 ==> p == i + n
    ensures i < -(n as int) ==> p == 0
    ensures n < i ==> p == n
  {
    if i < 0 then (if i + n < 0 then 0 else i + n)
    else if i > n then n
    else i
  }

  /** Python's `s[i]` on a list, with a negative subscript counting from the end. */
  function At(s: seq<int>, i: int): (x: int)
    requires -|s| <= i < |s|
    ensures x in s
    ensures i >= 0 ==> x == s[i]
  {
    if i < 0 then s[|s| + i] else s[i]
  }
}
