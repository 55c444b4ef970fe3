/** Sequence helpers shared by the parser, the task parser and the graph engine. */
module Seqs {

  /** No element occurs twice. */
  predicate NoDup<T(==)>(s: seq<T>) {
    forall i, j :: 0 <= i < j < |s| ==> s[i] != s[j]
  }

  /** Position of the first occurrence of `x` (JavaScript `indexOf`). */
  function IndexOf<T(==)>(s: seq<T>, x: T): (i: nat)
    requires x in s
    ensures i < |s| && s[i] == x && x !in s[..i]
  {
    if s[0] == x then 0 else 1 + IndexOf(s[1..], x)
  }

  lemma IndexOfBefore<T>(s: seq<T>, x: T, i: nat)
    requires i <= |s| && x in s[..i]
    ensures x in s && IndexOf(s, x) < i
  {
  }

  lemma IndexOfNoDup<T>(s: seq<T>, i: nat)
    requires NoDup(s) && i < |s|
    ensures IndexOf(s, s[i]) == i
  {
  }

  lemma {:induction false} IndexOfPrefix<T>(s: seq<T>, n: nat, x: T)
    requires n <= |s| && x in s[..n]
    ensures x in s && IndexOf(s, x) == IndexOf(s[..n], x)
  {
    if s[0] != x {
      assert s[1..][..n - 1] == s[..n][1..];
      IndexOfPrefix(s[1..], n - 1, x);
    }
  }

  /**
   * The elements of `s` without repetitions, each kept at its first
   * occurrence (the value of JavaScript's `[...new Set(s)]`).
   */
  function Distinct<T(==,!new)>(s: seq<T>): (r: seq<T>)
    ensures NoDup(r)
    ensures forall x :: x in r <==> x in s
    ensures forall i, j :: 0 <= i < j < |r| ==> IndexOf(s, r[i]) < IndexOf(s, r[j])
    decreases |s|
  {
    if |s| == 0 then []
    else
      var init := s[..|s| - 1];
      var last := s[|s| - 1];
      var d := Distinct(init);
      assert s == init + [last];
      DistinctStep(init, last, d);
      if last in d then d else d + [last]
  }

  /** One more element keeps a deduplicated list deduplicated, complete and in first-appearance order. */
  lemma DistinctStep<T>(init: seq<T>, last: T, d: seq<T>)
    requires NoDup(d) && forall x :: x in d <==> x in init
    requires forall i, j :: 0 <= i < j < |d| ==> IndexOf(init, d[i]) < IndexOf(init, d[j])
    ensures var s, r := init + [last], if last in d then d else d + [last];
      && NoDup(r)
      && (forall x :: x in r <==> x in s)
      && forall i, j :: 0 <= i < j < |r| ==> IndexOf(s, r[i]) < IndexOf(s, r[j])
  {
    var s := init + [last];
    assert s[..|init|] == init;
    forall x | x in d ensures IndexOf(s, x) == IndexOf(init, x) < |init| {
      IndexOfPrefix(s, |init|, x);
    }
    if last !in d {
      assert IndexOf(s, last) == |init|;
      var r := d + [last];
      forall i, j | 0 <= i < j < |r| ensures IndexOf(s, r[i]) < IndexOf(s, r[j]) {
        assert r[i] == d[i] && d[i] in d;
        if j < |d| {
          assert r[j] == d[j];
        }
      }
    }
  }

  /** Appending an element adds it to the deduplicated list unless it is already there. */
  lemma DistinctSnoc<T(!new)>(s: seq<T>, x: T)
    ensures Distinct(s + [x]) == if x in s then Distinct(s) else Distinct(s) + [x]
  {
    var t := s + [x];
    assert t[..|t| - 1] == s && t[|t| - 1] == x;
  }

  /** A prefix one longer is the shorter prefix and the next element. */
  lemma PrefixSnoc<T>(s: seq<T>, i: nat)
    requires i < |s|
    ensures s[..i + 1] == s[..i] + [s[i]]
  {
  }

  /** `Distinct` keeps first-appearance order: `x` comes before `y` in the result exactly when it first appears before `y` in the input. */
  lemma DistinctOrder<T(!new)>(s: seq<T>, x: T, y: T)
    requires x in s && y in s
    ensures x in Distinct(s) && y in Distinct(s)
    ensures IndexOf(Distinct(s), x) < IndexOf(Distinct(s), y) <==> IndexOf(s, x) < IndexOf(s, y)
  {
    var r := Distinct(s);
    var i, j := IndexOf(r, x), IndexOf(r, y);
    if i < j {
      assert IndexOf(s, r[i]) < IndexOf(s, r[j]);
    } else if j < i {
      assert IndexOf(s, r[j]) < IndexOf(s, r[i]);
    }
  }

  /** Deduplicating a concatenation keeps every element of both parts and puts the first part's elements before those only in the second. */
  lemma DistinctConcat<T(!new)>(a: seq<T>, b: seq<T>)
    ensures forall x :: x in Distinct(a + b) <==> x in a || x in b
    ensures forall x, y :: x in a && y in b && y !in a ==> IndexOf(Distinct(a + b), x) < IndexOf(Distinct(a + b), y)
  {
    var s := a + b;
    forall x, y | x in a && y in b && y !in a
      ensures IndexOf(Distinct(s), x) < IndexOf(Distinct(s), y)
    {
      IndexOfBefore(s, x, |a|);
      var j := IndexOf(s, y);
      if j < |a| {
        assert s[j] == a[j];
      }
      DistinctOrder(s, x, y);
    }
  }

  /** The sequence read backwards (JavaScript's in-place `reverse()`, as a value). */
  function Reverse<T(!new)>(s: seq<T>): (r: seq<T>)
    ensures |r| == |s|
    ensures forall i :: 0 <= i < |s| ==> r[i] == s[|s| - 1 - i]
  {
    if |s| == 0 then [] else Reverse(s[1..]) + [s[0]]
  }

  lemma ReversePreserves<T(!new)>(s: seq<T>)
    ensures forall x :: x in Reverse(s) <==> x in s
    ensures NoDup(s) ==> NoDup(Reverse(s))
  {
    var r := Reverse(s);
    forall x | x in s ensures x in r {
      var i :| 0 <= i < |s| && s[i] == x;
      assert r[|s| - 1 - i] == x;
    }
  }
}
