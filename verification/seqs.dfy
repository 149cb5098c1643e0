/** Sequence surgery used throughout the editor: the model's versions of
    `Array.prototype.filter`, `splice` and `new Set(...)` over sequences. */
module Seqs {
  import opened Wrappers

  /** `r` can be obtained from `s` by deleting elements: order is kept. */
  predicate IsSubsequence<T(==)>(r: seq<T>, s: seq<T>)
    decreases |s|
  {
    |r| == 0 || (|s| > 0 && ((r[0] == s[0] && IsSubsequence(r[1..], s[1..])) || IsSubsequence(r, s[1..])))
  }

  /** `Array.prototype.filter`: the elements of `s` satisfying `p`, in order. */
  function Filter<T>(p: T -> bool, s: seq<T>): (r: seq<T>)
    ensures |r| <= |s|
    ensures forall i :: 0 <= i < |r| ==> p(r[i])
  {
    if |s| == 0 then []
    else
      var rest := Filter(p, s[1..]);
      assert s == [s[0]] + s[1..];
      if p(s[0]) then [s[0]] + rest else rest
  }

  /** Filtering keeps exactly the elements that pass, each as often as before. */
  lemma FilterMembers<T>(p: T -> bool, s: seq<T>)
    ensures forall i :: 0 <= i < |Filter(p, s)| ==> Filter(p, s)[i] in s
    ensures forall i :: 0 <= i < |s| && p(s[i]) ==> s[i] in Filter(p, s)
    ensures multiset(Filter(p, s)) <= multiset(s)
    ensures forall x :: multiset(Filter(p, s))[x] == if p(x) then multiset(s)[x] else 0
  {
    var r := Filter(p, s);
    FilterCount(p, s);
    forall i | 0 <= i < |r| ensures r[i] in s {
      assert r[i] in multiset(r);
    }
    forall i | 0 <= i < |s| && p(s[i]) ensures s[i] in r {
      assert s[i] in multiset(s);
    }
  }

  /** Each value passing `p` occurs in the filtered sequence exactly as often
      as in `s`; every other value not at all. */
  lemma {:induction false} FilterCount<T>(p: T -> bool, s: seq<T>)
    ensures forall x :: multiset(Filter(p, s))[x] == if p(x) then multiset(s)[x] else 0
    decreases |s|
  {
    if |s| > 0 {
      var t := s[1..];
      FilterCount(p, t);
      assert s == [s[0]] + t;
      assert multiset(s) == multiset{s[0]} + multiset(t);
      assert Filter(p, s) == (if p(s[0]) then [s[0]] else []) + Filter(p, t);
    }
  }

  lemma {:induction false} FilterIsSubsequence<T>(p: T -> bool, s: seq<T>)
    ensures IsSubsequence(Filter(p, s), s)
    decreases |s|
  {
    if |s| > 0 {
      FilterIsSubsequence(p, s[1..]);
      var rest := Filter(p, s[1..]);
      if p(s[0]) {
        assert Filter(p, s) == [s[0]] + rest;
        assert Filter(p, s)[1..] == rest;
      } else {
        assert Filter(p, s) == rest;
      }
    }
  }

  /** Filtering keeps everything exactly when every element passes. */
  lemma {:induction false} FilterKeepsAll<T>(p: T -> bool, s: seq<T>)
    requires forall i :: 0 <= i < |s| ==> p(s[i])
    ensures Filter(p, s) == s
    decreases |s|
  {
    if |s| > 0 {
      FilterKeepsAll(p, s[1..]);
      assert s == [s[0]] + s[1..];
    }
  }

  /** One step of `Filter` on a sequence written as head and tail. */
  lemma FilterCons<T>(p: T -> bool, x: T, s: seq<T>)
    ensures Filter(p, [x] + s) == (if p(x) then [x] else []) + Filter(p, s)
  {
    assert ([x] + s)[1..] == s;
  }

  lemma {:induction false} FilterAppend<T>(p: T -> bool, a: seq<T>, b: seq<T>)
    ensures Filter(p, a + b) == Filter(p, a) + Filter(p, b)
    decreases |a|
  {
    if |a| == 0 {
      assert a + b == b;
    } else {
      assert (a + b)[1..] == a[1..] + b;
      FilterAppend(p, a[1..], b);
    }
  }

  /** The element `splice(i, 1)` removes. */
  function RemoveAt<T>(s: seq<T>, i: nat): (r: seq<T>)
    requires i < |s|
    ensures |r| == |s| - 1
    ensures forall j :: 0 <= j < i ==> r[j] == s[j]
    ensures forall j :: i <= j < |r| ==> r[j] == s[j + 1]
    ensures multiset(r) + multiset{s[i]} == multiset(s)
  {
    assert s == s[..i] + [s[i]] + s[i + 1..];
    s[..i] + s[i + 1..]
  }

  /** The position `splice(i, 0, x)` inserts at: JavaScript clamps a start
      past the end to the length. */
  function ClampIndex(i: nat, len: nat): (k: nat)
    ensures k <= len
    ensures i <= len ==> k == i
    ensures i > len ==> k == len
  {
    if i <= len then i else len
  }

  /** `splice(i, 0, x)`: `x` lands at `ClampIndex(i, |s|)`, the rest keeps its order. */
  function InsertAt<T>(s: seq<T>, i: nat, x: T): (r: seq<T>)
    ensures |r| == |s| + 1
    ensures r[ClampIndex(i, |s|)] == x
    ensures forall j :: 0 <= j < ClampIndex(i, |s|) ==> r[j] == s[j]
    ensures forall j :: ClampIndex(i, |s|) <= j < |s| ==> r[j + 1] == s[j]
    ensures multiset(r) == multiset(s) + multiset{x}
  {
    var k := ClampIndex(i, |s|);
    assert s == s[..k] + s[k..];
    s[..k] + [x] + s[k..]
  }

  /** Removing what was just inserted gives the original back. */
  lemma RemoveInserted<T>(s: seq<T>, i: nat, x: T)
    ensures RemoveAt(InsertAt(s, i, x), ClampIndex(i, |s|)) == s
  {
    var r := RemoveAt(InsertAt(s, i, x), ClampIndex(i, |s|));
    assert forall j :: 0 <= j < |s| ==> r[j] == s[j];
  }

  /** The list surgery of a drag: `const [m] = a.splice(from, 1); a.splice(to, 0, m)`.
      A `from` past the end is left unchanged (the source would insert `undefined`). */
  function Move<T>(s: seq<T>, from: nat, to: nat): (r: seq<T>)
    ensures |r| == |s|
    ensures multiset(r) == multiset(s)
    ensures from >= |s| ==> r == s
    ensures from < |s| ==> r[ClampIndex(to, |s| - 1)] == s[from]
    ensures from < |s| ==> RemoveAt(r, ClampIndex(to, |s| - 1)) == RemoveAt(s, from)
  {
    if from < |s| then
      var rest := RemoveAt(s, from);
      RemoveInserted(rest, to, s[from]);
      InsertAt(rest, to, s[from])
    else s
  }

  /** Moving the first element to the last position rotates the sequence by one. */
  lemma MoveFirstToLast<T>(s: seq<T>)
    requires |s| > 0
    ensures Move(s, 0, |s| - 1) == s[1..] + [s[0]]
  {
    var rest := RemoveAt(s, 0);
    assert rest == s[1..];
    assert InsertAt(rest, |rest|, s[0]) == rest + [s[0]] by {
      assert rest[..|rest|] == rest && rest[|rest|..] == [];
    }
  }

  /** `Array.prototype.find` by position: the first index whose element
      satisfies `p`, or `None` when no element does. */
  function FindIndex<T>(s: seq<T>, p: T -> bool): (r: Option<nat>)
    ensures r.None? <==> forall i :: 0 <= i < |s| ==> !p(s[i])
    ensures r.Some? ==> r.value < |s| && p(s[r.value]) && forall j :: 0 <= j < r.value ==> !p(s[j])
  {
    if |s| == 0 then None
    else if p(s[0]) then Some(0)
    else match FindIndex(s[1..], p)
      case None => None
      case Some(k) => Some(k + 1)
  }

  /** `[...new Set(s)]`: each element once, in order of first appearance. */
  function Distinct<T(==)>(s: seq<T>): (r: seq<T>)
    ensures forall i :: 0 <= i < |r| ==> r[i] in s
    ensures forall i :: 0 <= i < |s| ==> s[i] in r
    ensures forall i, j :: 0 <= i < j < |r| ==> r[i] != r[j]
    ensures |r| <= |s|
  {
    if |s| == 0 then []
    else
      var d := Distinct(s[..|s| - 1]);
      assert s == s[..|s| - 1] + [s[|s| - 1]];
      if s[|s| - 1] in d then d else d + [s[|s| - 1]]
  }

  /** Index of the first occurrence of `x` in `s`. */
  function FirstIndex<T(==)>(s: seq<T>, x: T): (k: nat)
    requires x in s
    ensures k < |s| && s[k] == x
    ensures forall j :: 0 <= j < k ==> s[j] != x
  {
    if s[0] == x then 0 else 1 + FirstIndex(s[1..], x)
  }

  /** `Distinct` lists elements in the order in which they first appear in `s`. */
  lemma {:induction false} DistinctFirstAppearanceOrder<T>(s: seq<T>, i: nat, j: nat)
    requires i < j < |Distinct(s)|
    ensures FirstIndex(s, Distinct(s)[i]) < FirstIndex(s, Distinct(s)[j])
    decreases |s|
  {
    var init := s[..|s| - 1];
    var last := s[|s| - 1];
    var d := Distinct(init);
    assert s == init + [last];
    FirstIndexPrefix(init, last, Distinct(s)[i]);
    if last in d {
      DistinctFirstAppearanceOrder(init, i, j);
      FirstIndexPrefix(init, last, Distinct(s)[j]);
    } else {
      if j < |d| {
        DistinctFirstAppearanceOrder(init, i, j);
        FirstIndexPrefix(init, last, Distinct(s)[j]);
      } else {
        assert Distinct(s)[j] == last;
        assert last !in init;
        FirstIndexOfNew(init, last);
      }
    }
  }

  lemma FirstIndexPrefix<T>(init: seq<T>, last: T, x: T)
    requires x in init
    ensures FirstIndex(init + [last], x) == FirstIndex(init, x)
  {
    var k := FirstIndex(init, x);
    FirstIndexUnique(init + [last], x, k);
  }

  lemma FirstIndexOfNew<T>(init: seq<T>, last: T)
    requires last !in init
    ensures FirstIndex(init + [last], last) == |init|
  {
    FirstIndexUnique(init + [last], last, |init|);
  }

  lemma {:induction false} FirstIndexUnique<T>(s: seq<T>, x: T, k: nat)
    requires k < |s| && s[k] == x
    requires forall j :: 0 <= j < k ==> s[j] != x
    ensures FirstIndex(s, x) == k
    decreases k
  {
    if k > 0 {
      FirstIndexUnique(s[1..], x, k - 1);
    }
  }
}
