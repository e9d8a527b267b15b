/** Small shared vocabulary: optional values, results, and the "remove the last
    occurrence" operations that both the listener list of an event pipeline and
    .NET delegate invocation lists use. */
module Wrappers {
  datatype Option<T> = None | Some(value: T)

  datatype Result<T, E> = Success(value: T) | Failure(error: E)
}

module Sequences {

  /** The sequence without its element at index k. */
  function RemoveAt<T>(s: seq<T>, k: nat): (r: seq<T>)
    requires k < |s|
    ensures |r| == |s| - 1
    ensures forall j :: 0 <= j < k ==> r[j] == s[j]
    ensures forall j :: k <= j < |r| ==> r[j] == s[j + 1]
  {
    s[..k] + s[k + 1..]
  }

  /** Index of the last occurrence of x in s, or -1 when x does not occur. */
  function LastIndexOf<T(==)>(s: seq<T>, x: T): (k: int)
    ensures -1 <= k < |s|
    ensures k == -1 <==> x !in s
    ensures 0 <= k ==> s[k] == x && forall j :: k < j < |s| ==> s[j] != x
  {
    if |s| == 0 then -1
    else if s[|s| - 1] == x then |s| - 1
    else
      assert s == s[..|s| - 1] + [s[|s| - 1]];
      LastIndexOf(s[..|s| - 1], x)
  }

  /** Removing at the index of the last occurrence takes away exactly one copy of
      that element and nothing else. */
  lemma RemoveAtMultiset<T>(s: seq<T>, k: nat)
    requires k < |s|
    ensures multiset(RemoveAt(s, k)) == multiset(s) - multiset{s[k]}
  {
    assert s == s[..k] + [s[k]] + s[k + 1..];
  }

  /** `d` occurs as a contiguous run of s starting at index j. */
  predicate RunAt<T(==)>(s: seq<T>, d: seq<T>, j: int)
  {
    0 <= j && j + |d| <= |s| && s[j..j + |d|] == d
  }

  /** The largest j <= k at which d occurs in s as a contiguous run, or -1. */
  function LastRunFrom<T(==)>(s: seq<T>, d: seq<T>, k: int): (r: int)
    requires -1 <= k && k + |d| <= |s|
    ensures -1 <= r <= k
    ensures 0 <= r ==> RunAt(s, d, r)
    ensures forall j :: r < j <= k ==> !RunAt(s, d, j)
    decreases k + 1
  {
    if k < 0 then -1
    else if s[k..k + |d|] == d then k
    else LastRunFrom(s, d, k - 1)
  }

  /** .NET `Delegate.Remove(source, value)` on invocation lists: the last
      contiguous occurrence of value's list is cut out of source; a null (empty)
      value, or one that does not occur, leaves source as it is. */
  function RemoveRun<T(==)>(s: seq<T>, d: seq<T>): seq<T>
  {
    if d == [] || |d| > |s| then s
    else
      var k := LastRunFrom(s, d, |s| - |d|);
      if k < 0 then s else s[..k] + s[k + |d|..]
  }

  /** Appending a run and removing it again restores the sequence. */
  lemma RemoveRunAfterAppend<T>(s: seq<T>, d: seq<T>)
    ensures RemoveRun(s + d, d) == s
  {
    if d != [] {
      var t := s + d;
      assert RunAt(t, d, |s|);
      var k := LastRunFrom(t, d, |t| - |d|);
      assert k == |s|;
      assert t[..k] == s;
    }
  }
}
