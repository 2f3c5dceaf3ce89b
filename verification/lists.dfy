/** The two list operations the screens are built from: `Array.filter`
    and `Array.find`. */
module Lists {
  import opened Wrappers

  /** `s.filter(p)`: the elements satisfying `p`, in their original order. */
  function Filter<T(==,!new)>(s: seq<T>, p: T -> bool): (r: seq<T>)
    ensures |r| <= |s|
    ensures forall i :: 0 <= i < |r| ==> p(r[i])
    ensures forall x :: x in r <==> x in s && p(x)
    decreases |s|
  {
    if |s| == 0 then [] else (if p(s[0]) then [s[0]] else []) + Filter(s[1..], p)
  }

  /** A filter that every element passes keeps the list as it is. */
  lemma {:induction false} FilterAll<T(!new)>(s: seq<T>, p: T -> bool)
    requires forall i :: 0 <= i < |s| ==> p(s[i])
    ensures Filter(s, p) == s
    decreases |s|
  {
    if |s| > 0 {
      FilterAll(s[1..], p);
      assert [s[0]] + s[1..] == s;
    }
  }

  /** A filter that no element passes leaves nothing. */
  lemma {:induction false} FilterNone<T(!new)>(s: seq<T>, p: T -> bool)
    requires forall i :: 0 <= i < |s| ==> !p(s[i])
    ensures Filter(s, p) == []
    decreases |s|
  {
    if |s| > 0 {
      FilterNone(s[1..], p);
    }
  }

  /** Filtering by a stronger condition is filtering the weaker filter's
      result again: the stronger result is an ordered sub-list of the weaker. */
  lemma {:induction false} FilterNarrows<T(!new)>(s: seq<T>, p: T -> bool, q: T -> bool)
    requires forall i :: 0 <= i < |s| ==> (p(s[i]) ==> q(s[i]))
    ensures Filter(s, p) == Filter(Filter(s, q), p)
    decreases |s|
  {
    if |s| > 0 {
      FilterNarrows(s[1..], p, q);
      var rest := Filter(s[1..], q);
      if q(s[0]) {
        assert Filter(s, q) == [s[0]] + rest;
        assert ([s[0]] + rest)[1..] == rest;
      } else {
        assert Filter(s, q) == rest;
      }
    }
  }

  /** Filtering a list with a head in front: the head if it passes, then the rest filtered. */
  lemma FilterCons<T(!new)>(x: T, s: seq<T>, p: T -> bool)
    ensures Filter([x] + s, p) == (if p(x) then [x] else []) + Filter(s, p)
  {
    assert ([x] + s)[1..] == s;
  }

  /** Filtering distributes over concatenation. */
  lemma {:induction false} FilterConcat<T(!new)>(a: seq<T>, b: seq<T>, p: T -> bool)
    ensures Filter(a + b, p) == Filter(a, p) + Filter(b, p)
    decreases |a|
  {
    if |a| == 0 {
      assert a + b == b;
    } else {
      assert (a + b)[1..] == a[1..] + b;
      FilterConcat(a[1..], b, p);
    }
  }

  /** Two lists whose elements pass their filters at the same positions
      keep the same number of elements. */
  lemma {:induction false} FilterLengthMatch<T(!new), U(!new)>(s: seq<T>, p: T -> bool, t: seq<U>, q: U -> bool)
    requires |s| == |t|
    requires forall i :: 0 <= i < |s| ==> (p(s[i]) <==> q(t[i]))
    ensures |Filter(s, p)| == |Filter(t, q)|
    decreases |s|
  {
    if |s| > 0 {
      assert forall i :: 0 <= i < |s| - 1 ==> s[1..][i] == s[i + 1] && t[1..][i] == t[i + 1];
      FilterLengthMatch(s[1..], p, t[1..], q);
    }
  }

  /** Replacing one element changes the filter's length only by what that
      element contributes before and after. */
  lemma {:induction false} FilterOneChange<T(!new)>(s: seq<T>, t: seq<T>, p: T -> bool, i: int)
    requires |s| == |t| && 0 <= i < |s|
    requires forall j :: 0 <= j < |s| && j != i ==> s[j] == t[j]
    ensures |Filter(t, p)| + (if p(s[i]) then 1 else 0) == |Filter(s, p)| + (if p(t[i]) then 1 else 0)
    decreases |s|
  {
    FilterLengthStep(s, p);
    FilterLengthStep(t, p);
    if i == 0 {
      assert s[1..] == t[1..];
    } else {
      assert forall j :: 0 <= j < |s| - 1 ==> s[1..][j] == s[j + 1] && t[1..][j] == t[j + 1];
      FilterOneChange(s[1..], t[1..], p, i - 1);
    }
  }

  /** The filter's length counts the head once, then the rest. */
  lemma FilterLengthStep<T(!new)>(s: seq<T>, p: T -> bool)
    requires |s| > 0
    ensures |Filter(s, p)| == (if p(s[0]) then 1 else 0) + |Filter(s[1..], p)|
  {
  }

  /** Sequences that are permutations of each other hold the same elements. */
  lemma SameMembers<T>(a: seq<T>, b: seq<T>)
    requires multiset(a) == multiset(b)
    ensures forall x :: x in a <==> x in b
  {
    forall x ensures x in a <==> x in b {
      assert x in a <==> x in multiset(a);
      assert x in b <==> x in multiset(b);
    }
  }

  /** `s.map(f)`: `f` applied to every element, in order. */
  function Map<T, U>(s: seq<T>, f: T -> U): (r: seq<U>)
    ensures |r| == |s| && forall i :: 0 <= i < |s| ==> r[i] == f(s[i])
  {
    seq(|s|, i requires 0 <= i < |s| => f(s[i]))
  }

  /** Behind one leading element, the mapped elements sit one place later. */
  lemma MapBehind<T, U>(h: U, s: seq<T>, f: T -> U)
    ensures |[h] + Map(s, f)| == |s| + 1 && ([h] + Map(s, f))[0] == h
    ensures forall i :: 0 <= i < |s| ==> ([h] + Map(s, f))[i + 1] == f(s[i])
  {
  }

  /** Index `i` holds the first element of `s` satisfying `p`. */
  predicate FirstHit<T>(s: seq<T>, p: T -> bool, i: int) {
    0 <= i < |s| && p(s[i]) && forall j :: 0 <= j < i ==> !p(s[j])
  }

  /** `s.find(p)`: the first element satisfying `p`, `None` for `undefined`. */
  function Find<T>(s: seq<T>, p: T -> bool): (r: Option<T>)
    ensures r.None? <==> forall i :: 0 <= i < |s| ==> !p(s[i])
    ensures r.Some? ==> exists i :: FirstHit(s, p, i) && s[i] == r.value
    decreases |s|
  {
    if |s| == 0 then None
    else if p(s[0]) then Some(s[0])
    else
      var r := Find(s[1..], p);
      assert r.Some? ==> exists i :: FirstHit(s, p, i) && s[i] == r.value by {
        if r.Some? {
          var i :| FirstHit(s[1..], p, i) && s[1..][i] == r.value;
          assert s[i + 1] == r.value;
          forall j | 0 <= j < i + 1 ensures !p(s[j]) {
            if j > 0 { assert s[j] == s[1..][j - 1]; }
          }
          assert FirstHit(s, p, i + 1);
        }
      }
      r
  }

  /** When exactly one element satisfies `p`, `find` returns that element. */
  lemma FindUnique<T>(s: seq<T>, p: T -> bool, k: int)
    requires 0 <= k < |s| && p(s[k])
    requires forall j :: 0 <= j < |s| && j != k ==> !p(s[j])
    ensures Find(s, p) == Some(s[k])
  {
    var r := Find(s, p);
    var i :| FirstHit(s, p, i) && s[i] == r.value;
    assert i == k;
  }

  /** `find` is the head of `filter`: the first element that passes, or
      nothing when none does. */
  lemma {:induction false} FindIsFilterHead<T(!new)>(s: seq<T>, p: T -> bool)
    ensures Find(s, p) == if |Filter(s, p)| > 0 then Some(Filter(s, p)[0]) else None
    decreases |s|
  {
    if |s| > 0 && !p(s[0]) {
      FindIsFilterHead(s[1..], p);
    }
  }
}
