/**
 Python's index arithmetic for `s[i:j]` and `s.rfind(sub, i, j)`: a negative
 bound counts from the end of the string, and every bound is then clamped
 into `[0, len(s)]`. The chunker's window loop can move its start below
 zero, so these rules are part of its behaviour.
 */
module Slicing {
  import opened Text

  /** A slice or search bound after Python's adjustment against length `n`. */
  function Clamp(i: int, n: nat): (r: nat)
    ensures r <= n
    ensures 0 <= i ==> r == if i < n then i else n
    ensures i < 0 ==> r == if i + n < 0 then 0 else i + n
  {
    if i < 0 then (if i + n < 0 then 0 else i + n) else if i > n then n else i
  }

  /** Python's `s[i:j]`. */
  function Slice(s: string, i: int, j: int): (r: string)
    ensures Clamp(i, |s|) <= Clamp(j, |s|) ==> r == s[Clamp(i, |s|)..Clamp(j, |s|)]
    ensures Clamp(j, |s|) < Clamp(i, |s|) ==> r == []
  {
    var a := Clamp(i, |s|);
    var b := Clamp(j, |s|);
    if a <= b then s[a..b] else []
  }

  /** Highest `k` in `[lo, k0]` at which `sub` occurs, or -1. */
  function LastOccurrence(s: string, sub: string, lo: nat, k0: int): (r: int)
    requires k0 + |sub| <= |s|
    ensures r == -1 || (lo <= r <= k0 && OccursAt(s, sub, r))
    ensures forall k :: r < k <= k0 && lo <= k ==> !OccursAt(s, sub, k)
    decreases k0 - lo
  {
    if k0 < lo then -1
    else if s[k0..k0 + |sub|] == sub then k0
    else LastOccurrence(s, sub, lo, k0 - 1)
  }

  /** Python's `s.rfind(sub, i, j)`: the last occurrence lying wholly inside the adjusted `[i, j)`, or -1. */
  function RFind(s: string, sub: string, i: int, j: int): (r: int)
    ensures r == -1 || (Clamp(i, |s|) <= r && r + |sub| <= Clamp(j, |s|) && OccursAt(s, sub, r))
    ensures forall k :: r < k && Clamp(i, |s|) <= k && k + |sub| <= Clamp(j, |s|) ==> !OccursAt(s, sub, k)
  {
    LastOccurrence(s, sub, Clamp(i, |s|), Clamp(j, |s|) - |sub|)
  }

  /** A slice is never longer than its raw bounds are apart. */
  lemma SliceLength(s: string, i: int, j: int)
    requires i <= j
    ensures |Slice(s, i, j)| <= j - i
  {
  }
}
