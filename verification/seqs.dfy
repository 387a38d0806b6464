/** Sequences of sequences joined end to end: the pages of a paginated
    listing, the sections of a spreadsheet row. */
module Seqs {

  /** The parts, joined in order. */
  function Concat<T>(parts: seq<seq<T>>): seq<T>
    decreases |parts|
  {
    if |parts| == 0 then [] else Concat(parts[..|parts| - 1]) + parts[|parts| - 1]
  }

  /** A non-empty sequence is its front followed by its last element. */
  lemma SplitLast<T>(s: seq<T>)
    requires |s| > 0
    ensures s == s[..|s| - 1] + [s[|s| - 1]]
  {
  }

  /** Where part `k` starts in the joined sequence. */
  function Start<T>(parts: seq<seq<T>>, k: nat): nat
    requires k <= |parts|
  {
    |Concat(parts[..k])|
  }

  /** Joining a prefix of the parts gives a prefix of the whole. */
  lemma {:induction false} ConcatPrefix<T>(parts: seq<seq<T>>, m: nat)
    requires m <= |parts|
    ensures Concat(parts[..m]) <= Concat(parts)
    decreases |parts| - m
  {
    if m < |parts| {
      var n := |parts| - 1;
      ConcatPrefix(parts[..n], m);
      assert parts[..n][..m] == parts[..m];
      assert parts[..|parts|] == parts;
    } else {
      assert parts[..m] == parts;
    }
  }

  /** Element `i` of part `k` sits at `Start(parts, k) + i`. */
  lemma ConcatAt<T>(parts: seq<seq<T>>, k: nat, i: nat)
    requires k < |parts| && i < |parts[k]|
    ensures Start(parts, k) + i < |Concat(parts)|
    ensures Concat(parts)[Start(parts, k) + i] == parts[k][i]
  {
    ConcatPrefix(parts, k + 1);
    assert parts[..k + 1][..k] == parts[..k];
    assert Concat(parts[..k + 1]) == Concat(parts[..k]) + parts[k];
  }

  /** The same, behind a prefix. */
  lemma ConcatAtAfter<T>(prefix: seq<T>, parts: seq<seq<T>>, k: nat, i: nat)
    requires k < |parts| && i < |parts[k]|
    ensures |prefix| + Start(parts, k) + i < |prefix + Concat(parts)|
    ensures (prefix + Concat(parts))[|prefix| + Start(parts, k) + i] == parts[k][i]
  {
    ConcatAt(parts, k, i);
  }

  /** Parts of the same lengths join to sequences of the same length. */
  lemma {:induction false} SameShape<T, U>(a: seq<seq<T>>, b: seq<seq<U>>)
    requires |a| == |b|
    requires forall k :: 0 <= k < |a| ==> |a[k]| == |b[k]|
    ensures |Concat(a)| == |Concat(b)|
    decreases |a|
  {
    if |a| > 0 {
      var n := |a| - 1;
      SameShape(a[..n], b[..n]);
    }
  }

  /** Parts of the same lengths start at the same places. */
  lemma SameStarts<T, U>(a: seq<seq<T>>, b: seq<seq<U>>, k: nat)
    requires |a| == |b| && k <= |a|
    requires forall j :: 0 <= j < |a| ==> |a[j]| == |b[j]|
    ensures Start(a, k) == Start(b, k)
  {
    SameShape(a[..k], b[..k]);
  }
}
