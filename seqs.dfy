/**
 * Sequence helpers standing in for the JavaScript array methods
 * (`filter`, `map`, `indexOf`, `includes`) and the lodash `_.uniq`
 * helper that the solver is built from.
 */
module Seqs {

  /** No element occurs twice. */
  predicate NoDups<T(==)>(s: seq<T>) {
    forall i, j :: 0 <= i < j < |s| ==> s[i] != s[j]
  }

  /** `Array.prototype.filter`: the elements of `s` that satisfy `f`, in their order. */
  function Filter<T(==, !new)>(f: T -> bool, s: seq<T>): (r: seq<T>)
    ensures |r| <= |s|
    ensures forall x :: x in r <==> x in s && f(x)
  {
    if s == [] then [] else (if f(s[0]) then [s[0]] else []) + Filter(f, s[1..])
  }

  /**
   * `Array.prototype.indexOf` / `String.prototype.indexOf` for one element:
   * the first index holding `x`, or -1 when there is none.
   */
  function IndexOf<T(==)>(s: seq<T>, x: T): (r: int)
    ensures r == -1 <==> x !in s
    ensures r != -1 ==> 0 <= r < |s| && s[r] == x
    ensures forall i :: 0 <= i < r ==> s[i] != x
  {
    if s == [] then -1
    else if s[0] == x then 0
    else
      var k := IndexOf(s[1..], x);
      if k == -1 then -1 else k + 1
  }

  /**
   * lodash `_.uniq`: the distinct elements of `s`, each at the place of its
   * first occurrence.
   */
  function Uniq<T(==, !new)>(s: seq<T>): (r: seq<T>)
    ensures NoDups(r)
    ensures |r| <= |s|
    ensures forall x :: x in r <==> x in s
  {
    if s == [] then []
    else
      var init, last := s[..|s| - 1], s[|s| - 1];
      assert s == init + [last];
      var u := Uniq(init);
      if last in u then u else u + [last]
  }

  /** `Uniq` lists the distinct elements in the order of their first occurrence. */
  lemma {:induction false} UniqOrder<T(!new)>(s: seq<T>)
    ensures forall i, j :: 0 <= i < j < |Uniq(s)| ==> IndexOf(s, Uniq(s)[i]) < IndexOf(s, Uniq(s)[j])
  {
    if s != [] {
      var init, last := s[..|s| - 1], s[|s| - 1];
      assert s == init + [last];
      UniqOrder(init);
      IndexOfPrefix(init, [last]);
    }
  }

  /** Appending elements does not move the first occurrence of an element already present. */
  lemma IndexOfPrefix<T>(a: seq<T>, b: seq<T>)
    ensures forall x :: x in a ==> IndexOf(a + b, x) == IndexOf(a, x)
    ensures forall x :: x !in a && x in b ==> IndexOf(a + b, x) >= |a|
  {
    forall x | x in a
      ensures IndexOf(a + b, x) == IndexOf(a, x)
    {
      var j := IndexOf(a, x);
      assert (a + b)[j] == x;
      assert forall i :: 0 <= i < j ==> (a + b)[i] == a[i];
    }
    forall x | x !in a && x in b
      ensures IndexOf(a + b, x) >= |a|
    {
      assert forall i :: 0 <= i < |a| ==> (a + b)[i] == a[i];
    }
  }

  /** Filtering distributes over concatenation. */
  lemma {:induction false} FilterConcat<T(!new)>(f: T -> bool, a: seq<T>, b: seq<T>)
    ensures Filter(f, a + b) == Filter(f, a) + Filter(f, b)
  {
    if a == [] {
      assert a + b == b;
    } else {
      assert (a + b)[0] == a[0];
      assert (a + b)[1..] == a[1..] + b;
      FilterConcat(f, a[1..], b);
    }
  }

  /** Two tests that agree on every element select the same elements. */
  lemma {:induction false} FilterExt<T(!new)>(f: T -> bool, g: T -> bool, s: seq<T>)
    requires forall x :: x in s ==> f(x) == g(x)
    ensures Filter(f, s) == Filter(g, s)
  {
    if s != [] {
      FilterExt(f, g, s[1..]);
    }
  }

  /** A test every element passes keeps the sequence unchanged. */
  lemma {:induction false} FilterAll<T(!new)>(f: T -> bool, s: seq<T>)
    requires forall x :: x in s ==> f(x)
    ensures Filter(f, s) == s
  {
    if s != [] {
      FilterAll(f, s[1..]);
    }
  }

  /** A test no element passes leaves nothing. */
  lemma {:induction false} FilterNone<T(!new)>(f: T -> bool, s: seq<T>)
    requires forall x :: x in s ==> !f(x)
    ensures Filter(f, s) == []
  {
    if s != [] {
      FilterNone(f, s[1..]);
    }
  }

  /** Filtering by `f` and then by `g` is filtering once by their conjunction `h`. */
  lemma {:induction false} FilterFilter<T(!new)>(f: T -> bool, g: T -> bool, h: T -> bool, s: seq<T>)
    requires forall x :: x in s ==> h(x) == (f(x) && g(x))
    ensures Filter(g, Filter(f, s)) == Filter(h, s)
  {
    if s != [] {
      var head := if f(s[0]) then [s[0]] else [];
      FilterConcat(g, head, Filter(f, s[1..]));
      FilterFilter(f, g, h, s[1..]);
    }
  }

  /** Filtering keeps a duplicate-free sequence duplicate-free. */
  lemma {:induction false} FilterNoDups<T(!new)>(f: T -> bool, s: seq<T>)
    requires NoDups(s)
    ensures NoDups(Filter(f, s))
  {
    if s != [] {
      assert NoDups(s[1..]) by {
        forall i, j | 0 <= i < j < |s[1..]| ensures s[1..][i] != s[1..][j] {
          assert s[1..][i] == s[i + 1] && s[1..][j] == s[j + 1];
        }
      }
      FilterNoDups(f, s[1..]);
      assert s[0] !in s[1..] by {
        assert forall k :: 0 <= k < |s[1..]| ==> s[1..][k] == s[k + 1];
      }
      var rest := Filter(f, s[1..]);
      var head := if f(s[0]) then [s[0]] else [];
      forall i, j | 0 <= i < j < |head + rest| ensures (head + rest)[i] != (head + rest)[j] {
        if i < |head| {
          assert (head + rest)[j] == rest[j - 1];
          assert rest[j - 1] in rest;
        } else {
          assert (head + rest)[i] == rest[i - |head|];
          assert (head + rest)[j] == rest[j - |head|];
        }
      }
    }
  }

  /** A weaker test keeps at least as many elements as a stronger one. */
  lemma {:induction false} FilterWeakerLength<T(!new)>(f: T -> bool, g: T -> bool, s: seq<T>)
    requires forall x :: x in s && g(x) ==> f(x)
    ensures |Filter(g, s)| <= |Filter(f, s)|
  {
    if s != [] {
      FilterWeakerLength(f, g, s[1..]);
    }
  }

  /** A duplicate-free sequence whose elements all occur in `b` is no longer than `b`. */
  lemma {:induction false} NoDupsSubsetLength<T(!new)>(a: seq<T>, b: seq<T>)
    requires NoDups(a)
    requires forall x :: x in a ==> x in b
    ensures |a| <= |b|
  {
    if a != [] {
      var x := a[0];
      var notX := y => y != x;
      var b' := Filter(notX, b);
      FilterDropsOne(notX, x, b);
      forall y | y in a[1..] ensures y in b' {
        var k :| 1 <= k < |a| && a[k] == y;
        assert a[0] != a[k];
      }
      assert NoDups(a[1..]) by {
        forall i, j | 0 <= i < j < |a[1..]| ensures a[1..][i] != a[1..][j] {
          assert a[1..][i] == a[i + 1] && a[1..][j] == a[j + 1];
        }
      }
      NoDupsSubsetLength(a[1..], b');
    }
  }

  /** A test that rejects some element shortens the sequence. */
  lemma {:induction false} FilterDropsOne<T(!new)>(f: T -> bool, x: T, b: seq<T>)
    requires x in b && !f(x)
    ensures |Filter(f, b)| < |b|
  {
    if b[0] != x {
      FilterDropsOne(f, x, b[1..]);
    }
  }

  /** A sequence without repeats is its own `Uniq`. */
  lemma {:induction false} UniqNoDups<T(!new)>(s: seq<T>)
    requires NoDups(s)
    ensures Uniq(s) == s
  {
    if s != [] {
      var init := s[..|s| - 1];
      assert NoDups(init);
      UniqNoDups(init);
      assert s[|s| - 1] !in init by {
        assert forall i :: 0 <= i < |init| ==> init[i] == s[i];
      }
      assert s == init + [s[|s| - 1]];
    }
  }

  /** A sequence without repeats has as many elements as its set of elements. */
  lemma {:induction false} NoDupsCard<T>(s: seq<T>)
    requires NoDups(s)
    ensures |set x | x in s| == |s|
  {
    if s != [] {
      var t := s[1..];
      assert NoDups(t) by {
        forall i, j | 0 <= i < j < |t| ensures t[i] != t[j] {
          assert t[i] == s[i + 1] && t[j] == s[j + 1];
        }
      }
      NoDupsCard(t);
      assert s[0] !in t by {
        assert forall k :: 0 <= k < |t| ==> t[k] == s[k + 1];
      }
      assert (set x | x in s) == {s[0]} + (set x | x in t) by {
        assert s == [s[0]] + t;
      }
    }
  }

  /** Filtering keeps the relative order of first occurrences. */
  lemma {:induction false} FilterIndexOrder<T(!new)>(f: T -> bool, s: seq<T>, x: T, y: T)
    requires x in Filter(f, s) && y in Filter(f, s)
    requires IndexOf(Filter(f, s), x) < IndexOf(Filter(f, s), y)
    ensures IndexOf(s, x) < IndexOf(s, y)
  {
    var rest := Filter(f, s[1..]);
    if f(s[0]) {
      assert Filter(f, s) == [s[0]] + rest;
      if x != s[0] {
        assert y != s[0];
        assert IndexOf(Filter(f, s), x) == IndexOf(rest, x) + 1;
        assert IndexOf(Filter(f, s), y) == IndexOf(rest, y) + 1;
        FilterIndexOrder(f, s[1..], x, y);
      }
    } else {
      assert Filter(f, s) == rest;
      FilterIndexOrder(f, s[1..], x, y);
    }
  }
}
