/** Where a delimiter first ends in a stream. */
module Boundary {
  import opened Bytes

  predicate EndsWith<T(==)>(s: seq<T>, delim: seq<T>)
  {
    |s| >= |delim| && s[|s| - |delim|..] == delim
  }

  /** Length of the shortest prefix of `s` that has at least `from` elements and ends in `delim`. */
  function FirstEndFrom<T(==)>(s: seq<T>, delim: seq<T>, from: nat): (n: Option<nat>)
    requires from <= |s|
    ensures n.Some? ==> from <= n.value <= |s| && EndsWith(s[..n.value], delim)
    ensures forall k | from <= k <= (if n.Some? then n.value - 1 else |s|) :: !EndsWith(s[..k], delim)
    decreases |s| - from
  {
    if EndsWith(s[..from], delim) then Some(from)
    else if from == |s| then None
    else FirstEndFrom(s, delim, from + 1)
  }

  function FirstEnd<T(==)>(s: seq<T>, delim: seq<T>): (n: Option<nat>)
    ensures n.Some? ==> n.value <= |s|
  {
    FirstEndFrom(s, delim, 0)
  }

  /** The first end is determined by what it says: it ends there and nowhere earlier. */
  lemma FirstEndIs<T>(s: seq<T>, delim: seq<T>, n: nat)
    requires n <= |s| && EndsWith(s[..n], delim)
    requires forall k | 0 <= k < n :: !EndsWith(s[..k], delim)
    ensures FirstEnd(s, delim) == Some(n)
  {
  }

  lemma FirstEndNone<T>(s: seq<T>, delim: seq<T>)
    requires forall k | 0 <= k <= |s| :: !EndsWith(s[..k], delim)
    ensures FirstEnd(s, delim) == None
  {
  }
}
