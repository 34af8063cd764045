/** Boolean-mask row selection, the operation behind pandas' `drop_duplicates`, `dropna`,
    `drop` and `df.loc[mask]`: keep the rows whose mask entry is true, in their order. */
module Masks {

  predicate StrictlyIncreasing(s: seq<int>) {
    forall i, j :: 0 <= i < j < |s| ==> s[i] < s[j]
  }

  predicate NoDuplicates<T(==)>(s: seq<T>) {
    forall i, j :: 0 <= i < j < |s| ==> s[i] != s[j]
  }

  /** `s[keep]`: the elements whose mask entry is true. */
  function Select<T>(s: seq<T>, keep: seq<bool>): (r: seq<T>)
    requires |keep| == |s|
    ensures |r| <= |s|
    decreases |s|
  {
    if s == [] then []
    else Select(s[..|s| - 1], keep[..|s| - 1]) + (if keep[|s| - 1] then [s[|s| - 1]] else [])
  }

  /** The positions whose mask entry is true, ascending. */
  function KeptPositions(keep: seq<bool>): (r: seq<nat>)
    ensures StrictlyIncreasing(r)
    ensures forall k :: 0 <= k < |r| ==> r[k] < |keep| && keep[r[k]]
    ensures forall i :: 0 <= i < |keep| && keep[i] ==> i in r
  {
    if keep == [] then []
    else KeptPositions(keep[..|keep| - 1]) + (if keep[|keep| - 1] then [|keep| - 1] else [])
  }

  /** The mask `p(s[i])` for every row i, as `df[column] == value` builds it. */
  function Where<T>(s: seq<T>, p: T -> bool): (m: seq<bool>)
    ensures |m| == |s|
  {
    seq(|s|, i requires 0 <= i < |s| => p(s[i]))
  }

  /** Selection keeps order: result element k is the input element at the k-th kept position. */
  lemma {:induction false} SelectPicksKeptPositions<T>(s: seq<T>, keep: seq<bool>)
    requires |keep| == |s|
    ensures |Select(s, keep)| == |KeptPositions(keep)|
    ensures forall k :: 0 <= k < |Select(s, keep)| ==> Select(s, keep)[k] == s[KeptPositions(keep)[k]]
  {
    if s != [] {
      var n := |s| - 1;
      SelectPicksKeptPositions(s[..n], keep[..n]);
    }
  }

  /** Selection only keeps elements of the input. */
  lemma SelectFromInput<T>(s: seq<T>, keep: seq<bool>, x: T)
    requires |keep| == |s| && x in Select(s, keep)
    ensures x in s
  {
    SelectPicksKeptPositions(s, keep);
    var k :| 0 <= k < |Select(s, keep)| && Select(s, keep)[k] == x;
  }

  /** A mask of all true keeps everything. */
  lemma {:induction false} SelectAll<T>(s: seq<T>, keep: seq<bool>)
    requires |keep| == |s| && forall i :: 0 <= i < |keep| ==> keep[i]
    ensures Select(s, keep) == s
  {
    if s != [] {
      var n := |s| - 1;
      SelectAll(s[..n], keep[..n]);
      assert s == s[..n] + [s[n]];
    }
  }

  /** Selecting from a sequence without repeats gives one without repeats. */
  lemma SelectKeepsDistinct<T>(s: seq<T>, keep: seq<bool>)
    requires |keep| == |s| && NoDuplicates(s)
    ensures NoDuplicates(Select(s, keep))
  {
    SelectPicksKeptPositions(s, keep);
  }

  /** Selecting from an ascending sequence gives an ascending one. */
  lemma SelectKeepsIncreasing(s: seq<int>, keep: seq<bool>)
    requires |keep| == |s| && StrictlyIncreasing(s)
    ensures StrictlyIncreasing(Select(s, keep))
  {
    SelectPicksKeptPositions(s, keep);
  }

  /** A mask built from a row predicate keeps exactly the rows satisfying it, each as often
      as it occurs in the input, and nothing else. */
  lemma {:induction false} SelectWhere<T>(s: seq<T>, p: T -> bool)
    ensures forall x :: x in Select(s, Where(s, p)) ==> p(x)
    ensures forall x :: multiset(Select(s, Where(s, p)))[x] == if p(x) then multiset(s)[x] else 0
  {
    if s != [] {
      var n := |s| - 1;
      assert Where(s, p)[..n] == Where(s[..n], p);
      SelectWhere(s[..n], p);
      assert s == s[..n] + [s[n]];
    }
  }
}
