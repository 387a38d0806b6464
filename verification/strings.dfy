/** Text helpers shared by the model: Python's ordering of `str` values,
    `sorted`, `sorted(set(...))`, ASCII `upper`/`lower`, the `in` substring
    test, and `'|'.join` with its inverse. */
module Strings {

  /** The elements of a sequence, as a set (Python's `set(xs)`). */
  function Elems<T>(xs: seq<T>): (r: set<T>)
    ensures r == {} <==> |xs| == 0
  {
    var r := set x | x in xs;
    assert |xs| > 0 ==> xs[0] in r;
    r
  }

  /** Python's `a < b` on `str`: lexicographic on code points, a proper
      prefix ordered first. */
  predicate Less(a: string, b: string)
    decreases |a|
  {
    if |a| == 0 then |b| > 0
    else if |b| == 0 then false
    else if a[0] != b[0] then a[0] < b[0]
    else Less(a[1..], b[1..])
  }

  lemma {:induction false} LessIrreflexive(a: string)
    ensures !Less(a, a)
    decreases |a|
  {
    if |a| > 0 {
      LessIrreflexive(a[1..]);
    }
  }

  lemma {:induction false} LessAsymmetric(a: string, b: string)
    ensures !(Less(a, b) && Less(b, a))
    decreases |a|
  {
    if |a| > 0 && |b| > 0 && a[0] == b[0] {
      LessAsymmetric(a[1..], b[1..]);
    }
  }

  lemma {:induction false} LessTotal(a: string, b: string)
    ensures a == b || Less(a, b) || Less(b, a)
    decreases |a|
  {
    if |a| > 0 && |b| > 0 && a[0] == b[0] {
      LessTotal(a[1..], b[1..]);
      if a[1..] == b[1..] {
        assert a == [a[0]] + a[1..];
        assert b == [b[0]] + b[1..];
      }
    }
  }

  lemma {:induction false} LessTransitive(a: string, b: string, c: string)
    requires Less(a, b) && Less(b, c)
    ensures Less(a, c)
    decreases |a|
  {
    if |a| > 0 && |b| > 0 && |c| > 0 && a[0] == b[0] && b[0] == c[0] {
      LessTransitive(a[1..], b[1..], c[1..]);
    }
  }

  /** `!Less(b, a)` is Python's `a <= b`; it is transitive too. */
  lemma NotLessTransitive(a: string, b: string, c: string)
    requires !Less(b, a) && !Less(c, b)
    ensures !Less(c, a)
  {
    LessTotal(a, b);
    LessTotal(b, c);
    if Less(a, b) && Less(b, c) {
      LessTransitive(a, b, c);
      LessAsymmetric(a, c);
    } else if Less(a, b) {
      LessAsymmetric(a, b);
    } else if Less(b, c) {
      LessAsymmetric(b, c);
    } else {
      LessIrreflexive(a);
    }
  }

  /** Sorted without repetitions, as `sorted(set(xs))` returns. */
  predicate StrictlyIncreasing(s: seq<string>) {
    forall i, j :: 0 <= i < j < |s| ==> Less(s[i], s[j])
  }

  /** Sorted, repetitions allowed, as `sorted(xs)` returns. */
  predicate NonDecreasing(s: seq<string>) {
    forall i, j :: 0 <= i < j < |s| ==> !Less(s[j], s[i])
  }

  lemma BelowHeadBelowAll(s: seq<string>, x: string)
    requires StrictlyIncreasing(s) && |s| > 0 && Less(x, s[0])
    ensures forall j :: 0 <= j < |s| ==> Less(x, s[j])
  {
    forall j | 0 < j < |s|
      ensures Less(x, s[j])
    {
      LessTransitive(x, s[0], s[j]);
    }
  }

  /** A head below everything in a strictly increasing tail keeps it strictly increasing. */
  lemma ConsIncreasing(h: string, rest: seq<string>)
    requires StrictlyIncreasing(rest)
    requires forall k :: 0 <= k < |rest| ==> Less(h, rest[k])
    ensures StrictlyIncreasing([h] + rest)
  {
    var t := [h] + rest;
    forall i, j | 0 <= i < j < |t|
      ensures Less(t[i], t[j])
    {
      assert t[j] == rest[j - 1];
      if i > 0 {
        assert t[i] == rest[i - 1];
      }
    }
  }

  /** Putting the head of `s` back in front of the tail with `x` inserted
      keeps the order and adds exactly `x`. */
  lemma InsertBehindHead(s: seq<string>, x: string, rest: seq<string>)
    requires StrictlyIncreasing(s) && |s| > 0 && Less(s[0], x)
    requires StrictlyIncreasing(rest) && Elems(rest) == Elems(s[1..]) + {x}
    ensures StrictlyIncreasing([s[0]] + rest)
    ensures Elems([s[0]] + rest) == Elems(s) + {x}
  {
    forall k | 0 <= k < |rest|
      ensures Less(s[0], rest[k])
    {
      assert rest[k] in Elems(rest);
      if rest[k] != x {
        var m :| 0 <= m < |s[1..]| && s[1..][m] == rest[k];
        assert s[m + 1] == rest[k];
      }
    }
    ConsIncreasing(s[0], rest);
    ConsElems(s[0], rest);
    ConsElems(s[0], s[1..]);
    assert s == [s[0]] + s[1..];
  }

  lemma ConsElems(h: string, rest: seq<string>)
    ensures Elems([h] + rest) == {h} + Elems(rest)
  {
  }

  /** Inserts `x` into a strictly increasing sequence unless it is already there. */
  function InsertUnique(s: seq<string>, x: string): (r: seq<string>)
    requires StrictlyIncreasing(s)
    ensures StrictlyIncreasing(r)
    ensures Elems(r) == Elems(s) + {x}
  {
    if |s| == 0 then [x]
    else if x == s[0] then s
    else if Less(x, s[0]) then
      BelowHeadBelowAll(s, x);
      [x] + s
    else
      LessTotal(x, s[0]);
      var rest := InsertUnique(s[1..], x);
      InsertBehindHead(s, x, rest);
      [s[0]] + rest
  }

  /** `sorted(set(xs))`: the strictly increasing listing of the elements of `xs`. */
  function SortedSet(xs: seq<string>): (r: seq<string>)
    ensures StrictlyIncreasing(r)
    ensures Elems(r) == Elems(xs)
  {
    if |xs| == 0 then []
    else
      assert Elems(xs) == Elems(xs[..|xs| - 1]) + {xs[|xs| - 1]} by {
        assert xs == xs[..|xs| - 1] + [xs[|xs| - 1]];
      }
      InsertUnique(SortedSet(xs[..|xs| - 1]), xs[|xs| - 1])
  }

  /** A finite set of strings has exactly one strictly increasing listing. */
  lemma {:induction false} StrictlyIncreasingUnique(a: seq<string>, b: seq<string>)
    requires StrictlyIncreasing(a) && StrictlyIncreasing(b)
    requires Elems(a) == Elems(b)
    ensures a == b
    decreases |a|
  {
    if |a| > 0 {
      assert a[0] in Elems(b);
      assert |b| > 0;
      assert b[0] in Elems(a);
      var i :| 0 <= i < |a| && a[i] == b[0];
      var k :| 0 <= k < |b| && b[k] == a[0];
      if a[0] != b[0] {
        assert i > 0 && k > 0;
        LessAsymmetric(a[0], b[0]);
        assert false;
      }
      assert Elems(a[1..]) == Elems(a) - {a[0]} by {
        assert a == [a[0]] + a[1..];
        forall j | 0 <= j < |a[1..]|
          ensures a[1..][j] != a[0]
        {
          LessIrreflexive(a[0]);
        }
      }
      assert Elems(b[1..]) == Elems(b) - {b[0]} by {
        assert b == [b[0]] + b[1..];
        forall j | 0 <= j < |b[1..]|
          ensures b[1..][j] != b[0]
        {
          LessIrreflexive(b[0]);
        }
      }
      StrictlyIncreasingUnique(a[1..], b[1..]);
      assert a == [a[0]] + a[1..];
      assert b == [b[0]] + b[1..];
    }
  }

  /** Inserts `x` into a non-decreasing sequence, before the first element not below it. */
  function Insert(s: seq<string>, x: string): (r: seq<string>)
    requires NonDecreasing(s)
    ensures NonDecreasing(r)
    ensures multiset(r) == multiset(s) + multiset{x}
    ensures r[0] == x || (|s| > 0 && r[0] == s[0])
  {
    if |s| == 0 then [x]
    else if !Less(s[0], x) then
      assert forall j :: 0 <= j < |s| ==> !Less(s[j], x) by {
        forall j | 0 < j < |s|
          ensures !Less(s[j], x)
        {
          NotLessTransitive(x, s[0], s[j]);
        }
      }
      [x] + s
    else
      var rest := Insert(s[1..], x);
      assert s == [s[0]] + s[1..];
      assert forall k :: 0 <= k < |rest| ==> !Less(rest[k], s[0]) by {
        forall k | 0 <= k < |rest|
          ensures !Less(rest[k], s[0])
        {
          assert rest[k] in multiset(rest);
          if rest[k] == x {
            LessAsymmetric(s[0], x);
          } else {
            assert rest[k] in multiset(s[1..]);
            var m :| 0 <= m < |s[1..]| && s[1..][m] == rest[k];
            assert s[m + 1] == rest[k];
          }
        }
      }
      [s[0]] + rest
  }

  /** `sorted(xs)`: the non-decreasing rearrangement of `xs`. */
  function Sort(xs: seq<string>): (r: seq<string>)
    ensures NonDecreasing(r)
    ensures multiset(r) == multiset(xs)
  {
    if |xs| == 0 then []
    else
      assert xs == xs[..|xs| - 1] + [xs[|xs| - 1]];
      Insert(Sort(xs[..|xs| - 1]), xs[|xs| - 1])
  }

  /** ASCII upper-casing of one character; other characters are kept. */
  function UpperChar(c: char): char {
    if 'a' <= c <= 'z' then (c as int - 32) as char else c
  }

  /** ASCII lower-casing of one character; other characters are kept. */
  function LowerChar(c: char): char {
    if 'A' <= c <= 'Z' then (c as int + 32) as char else c
  }

  /** `s.upper()` restricted to ASCII letters. */
  function Upper(s: string): (r: string)
    ensures |r| == |s|
    ensures forall i :: 0 <= i < |s| ==> r[i] == UpperChar(s[i])
  {
    seq(|s|, i requires 0 <= i < |s| => UpperChar(s[i]))
  }

  /** `s.lower()` restricted to ASCII letters. */
  function Lower(s: string): (r: string)
    ensures |r| == |s|
    ensures forall i :: 0 <= i < |s| ==> r[i] == LowerChar(s[i])
  {
    seq(|s|, i requires 0 <= i < |s| => LowerChar(s[i]))
  }

  lemma UpperIdempotent(s: string)
    ensures Upper(Upper(s)) == Upper(s)
  {
  }

  /** `needle` occurs in `hay` starting at position `i`. */
  predicate OccursAt(hay: string, needle: string, i: nat) {
    i + |needle| <= |hay| && hay[i..i + |needle|] == needle
  }

  /** Python's `needle in hay` on strings. */
  predicate Contains(hay: string, needle: string) {
    exists i: nat :: i <= |hay| && OccursAt(hay, needle, i)
  }

  /** The character `'|'.join` puts between roster codes. */
  const Separator: char := '|'

  /** `'|'.join(parts)`. */
  function Join(parts: seq<string>): string {
    if |parts| == 0 then ""
    else if |parts| == 1 then parts[0]
    else parts[0] + [Separator] + Join(parts[1..])
  }

  /** Position of the first separator in `s`, or `|s|` when there is none. */
  function FirstSeparator(s: string): (i: nat)
    ensures i <= |s|
    ensures forall k :: 0 <= k < i ==> s[k] != Separator
    ensures i < |s| ==> s[i] == Separator
  {
    if |s| == 0 then 0
    else if s[0] == Separator then 0
    else 1 + FirstSeparator(s[1..])
  }

  /** Cuts a joined key back into its parts (empty key, no parts). */
  function Split(s: string): seq<string>
    decreases |s|
  {
    if |s| == 0 then []
    else
      var i := FirstSeparator(s);
      if i == |s| then [s] else [s[..i]] + Split(s[i + 1..])
  }

  /** A code that survives joining: non-empty and free of the separator. */
  predicate Clean(code: string) {
    |code| > 0 && Separator !in code
  }

  lemma {:induction false} FirstSeparatorAfterClean(p: string, t: string)
    requires Separator !in p
    ensures FirstSeparator(p + t) == |p| + FirstSeparator(t)
    decreases |p|
  {
    if |p| > 0 {
      assert (p + t)[1..] == p[1..] + t;
      FirstSeparatorAfterClean(p[1..], t);
    } else {
      assert p + t == t;
    }
  }

  /** Splitting a clean code followed by a separator peels that code off. */
  lemma SplitCons(p: string, rest: string)
    requires Clean(p)
    ensures Split(p + [Separator] + rest) == [p] + Split(rest)
  {
    var s := p + [Separator] + rest;
    assert s == p + ([Separator] + rest);
    FirstSeparatorAfterClean(p, [Separator] + rest);
    assert s[..|p|] == p;
    assert s[|p| + 1..] == rest;
  }

  /** Splitting a joined list of clean codes gives the list back. */
  lemma {:induction false} SplitJoin(parts: seq<string>)
    requires forall k :: 0 <= k < |parts| ==> Clean(parts[k])
    ensures Split(Join(parts)) == parts
    decreases |parts|
  {
    if |parts| == 1 {
      FirstSeparatorAfterClean(parts[0], "");
      assert parts[0] + "" == parts[0];
    } else if |parts| > 1 {
      SplitCons(parts[0], Join(parts[1..]));
      SplitJoin(parts[1..]);
      assert parts == [parts[0]] + parts[1..];
    }
  }

  /** With clean codes, `'|'.join` never maps two lists to the same key. */
  lemma JoinInjective(a: seq<string>, b: seq<string>)
    requires forall k :: 0 <= k < |a| ==> Clean(a[k])
    requires forall k :: 0 <= k < |b| ==> Clean(b[k])
    ensures Join(a) == Join(b) <==> a == b
  {
    SplitJoin(a);
    SplitJoin(b);
  }
}
