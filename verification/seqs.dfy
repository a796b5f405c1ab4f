/** Facts about sequences used across the model: distinctness, filtering in
    order (JavaScript's `Array.prototype.filter`) and the subsequence order. */
module Seqs {

  /** No element occurs twice. */
  ghost predicate Distinct<T>(s: seq<T>) {
    forall i, j :: 0 <= i < j < |s| ==> s[i] != s[j]
  }

  /** A slice of a slice is a slice. */
  lemma SliceOfSlice<T>(s: seq<T>, lo: nat, hi: nat, a: nat, b: nat)
    requires lo <= hi <= |s| && a <= b <= hi - lo
    ensures s[lo..hi][a..b] == s[lo + a..lo + b]
  {
    forall k | 0 <= k < b - a
      ensures s[lo..hi][a..b][k] == s[lo + a..lo + b][k]
    {
      assert s[lo..hi][a..b][k] == s[lo..hi][a + k] == s[lo + a + k];
    }
  }

  /** Concatenation regrouped. */
  lemma Regroup<T>(a: seq<T>, b: seq<T>, c: seq<T>, d: seq<T>)
    ensures a + (b + c) + d == a + b + (c + d)
  {
  }

  /** How many elements of `s` equal `x`. */
  function Count<T(==)>(s: seq<T>, x: T): nat
    decreases |s|
  {
    if |s| == 0 then 0 else Count(s[..|s| - 1], x) + (if s[|s| - 1] == x then 1 else 0)
  }

  /** Counting distributes over concatenation. */
  lemma {:induction false} CountConcat<T>(a: seq<T>, b: seq<T>, x: T)
    ensures Count(a + b, x) == Count(a, x) + Count(b, x)
    decreases |b|
  {
    if |b| == 0 {
      assert a + b == a;
    } else {
      assert (a + b)[..|a + b| - 1] == a + b[..|b| - 1];
      CountConcat(a, b[..|b| - 1], x);
    }
  }

  /** An element occurs in `s` exactly when it is counted there. */
  lemma {:induction false} CountMembers<T>(s: seq<T>, x: T)
    ensures Count(s, x) > 0 <==> x in s
    decreases |s|
  {
    if |s| > 0 {
      CountMembers(s[..|s| - 1], x);
      assert s == s[..|s| - 1] + [s[|s| - 1]];
    }
  }

  /** The set of the elements of `s`. */
  function Elements<T>(s: seq<T>): set<T>
    decreases |s|
  {
    if |s| == 0 then {} else Elements(s[..|s| - 1]) + {s[|s| - 1]}
  }

  /** `Elements` holds exactly the members of the sequence. */
  lemma {:induction false} ElementsMembers<T>(s: seq<T>)
    ensures forall x :: x in Elements(s) <==> x in s
    decreases |s|
  {
    if |s| > 0 {
      ElementsMembers(s[..|s| - 1]);
      assert s == s[..|s| - 1] + [s[|s| - 1]];
    }
  }

  /** The last of distinct elements occurs nowhere before it. */
  lemma DistinctSnoc<T>(s: seq<T>, x: T)
    requires Distinct(s + [x])
    ensures Distinct(s) && x !in s
  {
    forall i | 0 <= i < |s|
      ensures s[i] != x
    {
      assert (s + [x])[i] == s[i] && (s + [x])[|s|] == x;
    }
    forall i, j | 0 <= i < j < |s|
      ensures s[i] != s[j]
    {
      assert (s + [x])[i] == s[i] && (s + [x])[j] == s[j];
    }
  }

  /** `a` is obtained from `b` by deleting elements, keeping the rest in order. */
  ghost predicate Subseq<T>(a: seq<T>, b: seq<T>)
    decreases |b|
  {
    if |a| == 0 then true
    else if |b| == 0 then false
    else if a[0] == b[0] then Subseq(a[1..], b[1..])
    else Subseq(a, b[1..])
  }

  /** The elements of `s` that satisfy `p`, in their original order: each
      element that satisfies `p` is kept as often as it occurs, every other
      element is dropped. */
  function Filter<T(!new)>(s: seq<T>, p: T -> bool): (r: seq<T>)
    ensures |r| <= |s|
    ensures forall x :: x in r <==> x in s && p(x)
    ensures forall x :: Count(r, x) == (if p(x) then Count(s, x) else 0)
    ensures Subseq(r, s)
    decreases |s|
  {
    if |s| == 0 then []
    else
      var rest := Filter(s[1..], p);
      assert s == [s[0]] + s[1..];
      assert forall x :: Count(s, x) == Count([s[0]], x) + Count(s[1..], x) by {
        forall x ensures Count(s, x) == Count([s[0]], x) + Count(s[1..], x) {
          CountConcat([s[0]], s[1..], x);
        }
      }
      assert forall x :: Count([s[0]], x) == (if s[0] == x then 1 else 0) by {
        assert [s[0]][..0] == [];
      }
      assert forall x :: Count([s[0]] + rest, x) == Count([s[0]], x) + Count(rest, x) by {
        forall x ensures Count([s[0]] + rest, x) == Count([s[0]], x) + Count(rest, x) {
          CountConcat([s[0]], rest, x);
        }
      }
      if p(s[0]) then
        [s[0]] + rest
      else
        assert rest == [] || rest[0] != s[0] by {
          if rest != [] { assert rest[0] in rest; }
        }
        rest
  }

  /** Filtering a distinct sequence keeps it distinct. */
  lemma {:induction false} FilterDistinct<T(!new)>(s: seq<T>, p: T -> bool)
    requires Distinct(s)
    ensures Distinct(Filter(s, p))
    decreases |s|
  {
    if |s| > 0 {
      FilterDistinct(s[1..], p);
      var rest := Filter(s[1..], p);
      if p(s[0]) {
        assert s[0] !in s[1..] by {
          assert forall j :: 0 <= j < |s[1..]| ==> s[1..][j] == s[j + 1];
        }
        assert s[0] !in rest;
        var r := [s[0]] + rest;
        forall i, j | 0 <= i < j < |r| ensures r[i] != r[j] {
          if i == 0 { assert r[j] == rest[j - 1]; assert rest[j - 1] in rest; }
        }
      }
    }
  }

  /** Filtering distributes over concatenation: filtering never reorders. */
  lemma {:induction false} FilterConcat<T(!new)>(a: seq<T>, b: seq<T>, p: T -> bool)
    ensures Filter(a + b, p) == Filter(a, p) + Filter(b, p)
    decreases |a|
  {
    if |a| == 0 {
      assert a + b == b;
    } else {
      assert (a + b)[1..] == a[1..] + b;
      FilterConcat(a[1..], b, p);
    }
  }

  /** When every element satisfies `p`, filtering changes nothing. */
  lemma {:induction false} FilterAll<T(!new)>(s: seq<T>, p: T -> bool)
    requires forall x :: x in s ==> p(x)
    ensures Filter(s, p) == s
    decreases |s|
  {
    if |s| > 0 {
      assert forall x :: x in s[1..] ==> x in s;
      FilterAll(s[1..], p);
    }
  }

  /** `[...s].reverse()` */
  function Reverse<T>(s: seq<T>): (r: seq<T>)
    ensures |r| == |s|
    ensures forall k :: 0 <= k < |s| ==> r[k] == s[|s| - 1 - k]
    decreases |s|
  {
    if |s| == 0 then [] else Reverse(s[1..]) + [s[0]]
  }
}
