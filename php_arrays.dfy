/** The PHP array functions GmailMatcher::validate and GmailMatcher::match are
    built from, on lists of values. Keys are not modelled: every list here is
    the value sequence of a PHP array in its iteration order. */
module PhpArrays {

  /** PHP truthiness of a string: "" and "0" are falsy, every other string is truthy. */
  predicate Truthy(s: string): (r: bool)
    ensures r ==> |s| > 0
    ensures |s| >= 2 ==> r
    ensures |s| == 1 ==> (r <==> s[0] != '0')
  {
    s != "" && s != "0"
  }

  /** Every element of xs satisfies p. */
  predicate AllOf<T>(xs: seq<T>, p: T -> bool) {
    forall i :: 0 <= i < |xs| ==> p(xs[i])
  }

  /** a is the first element of xs, in order, that fails p. */
  ghost predicate IsFirstOffender<T>(xs: seq<T>, p: T -> bool, a: T) {
    exists i :: 0 <= i < |xs| && xs[i] == a && !p(a) && AllOf(xs[..i], p)
  }

  /** array_filter with a callback, and preg_grep: the elements that pass p, in
      order. The result equals the input exactly when every element passes,
      which is how the source's strict comparisons detect a failure. */
  function Filter<T(!new)>(p: T -> bool, xs: seq<T>): (r: seq<T>)
    ensures forall x :: x in r <==> x in xs && p(x)
    ensures |r| <= |xs|
    ensures |r| == |xs| <==> AllOf(xs, p)
    ensures r == xs <==> AllOf(xs, p)
  {
    if xs == [] then []
    else
      var rest := Filter(p, xs[1..]);
      assert AllOf(xs, p) <==> p(xs[0]) && AllOf(xs[1..], p) by {
        if p(xs[0]) && AllOf(xs[1..], p) {
          forall i | 0 <= i < |xs| ensures p(xs[i]) {
            if i > 0 { assert xs[i] == xs[1..][i - 1]; }
          }
        }
      }
      if p(xs[0]) then
        assert [xs[0]] + xs[1..] == xs;
        [xs[0]] + rest
      else rest
  }

  /** array_diff($xs, $ys): the elements of xs whose value occurs nowhere in ys, in order. */
  function Diff(xs: seq<string>, ys: seq<string>): (r: seq<string>)
    ensures forall x :: x in r <==> x in xs && x !in ys
  {
    Filter(x => x !in ys, xs)
  }

  /** array_unique: the first occurrence of every value, in order. */
  function Unique<T(==,!new)>(xs: seq<T>): (r: seq<T>)
    ensures forall x :: x in r <==> x in xs
    ensures forall i, j :: 0 <= i < j < |r| ==> r[i] != r[j]
  {
    if xs == [] then []
    else
      var init := Unique(xs[..|xs| - 1]);
      var last := xs[|xs| - 1];
      assert xs == xs[..|xs| - 1] + [last];
      if last in init then init else init + [last]
  }

  /** Filtering keeps the input's order: filtering a concatenation filters each
      part. With the contract of Filter this fixes the result completely. */
  lemma {:induction false} FilterAppend<T(!new)>(p: T -> bool, a: seq<T>, b: seq<T>)
    ensures Filter(p, a + b) == Filter(p, a) + Filter(p, b)
  {
    if a == [] {
      assert a + b == b;
    } else {
      assert (a + b)[0] == a[0] && (a + b)[1..] == a[1..] + b;
      FilterAppend(p, a[1..], b);
    }
  }

  /** array_diff keeps the first list's order: the difference of a concatenation
      is the concatenation of the differences. */
  lemma DiffAppend(a: seq<string>, b: seq<string>, ys: seq<string>)
    ensures Diff(a + b, ys) == Diff(a, ys) + Diff(b, ys)
  {
    FilterAppend(x => x !in ys, a, b);
  }

  /** Filtering with two predicates that agree on every element gives the same list. */
  lemma {:induction false} FilterAgrees<T(!new)>(p: T -> bool, q: T -> bool, xs: seq<T>)
    requires forall x :: x in xs ==> (p(x) <==> q(x))
    ensures Filter(p, xs) == Filter(q, xs)
  {
    if xs != [] {
      FilterAgrees(p, q, xs[1..]);
    }
  }

  /** The head of a non-empty filtered list is the first element of the input that passes. */
  lemma {:induction false} FilterHead<T(!new)>(p: T -> bool, xs: seq<T>)
    requires Filter(p, xs) != []
    ensures exists i :: 0 <= i < |xs| && xs[i] == Filter(p, xs)[0] && p(xs[i])
                        && forall j :: 0 <= j < i ==> !p(xs[j])
  {
    if p(xs[0]) {
    } else {
      FilterHead(p, xs[1..]);
      var i :| 0 <= i < |xs[1..]| && xs[1..][i] == Filter(p, xs[1..])[0] && p(xs[1..][i])
               && forall j :: 0 <= j < i ==> !p(xs[1..][j]);
      assert xs[i + 1] == xs[1..][i];
      forall j | 0 <= j < i + 1 ensures !p(xs[j]) {
        if j > 0 { assert xs[j] == xs[1..][j - 1]; }
      }
    }
  }

  /** array_values(array_diff($xs, $ys))[0], when the values of xs found in ys are
      exactly those that pass p and some element fails p: the element reported is
      the first element of xs that fails p. */
  lemma DiffHead(xs: seq<string>, ys: seq<string>, p: string -> bool)
    requires forall x :: x in xs ==> (x in ys <==> p(x))
    requires !AllOf(xs, p)
    ensures Diff(xs, ys) != []
    ensures IsFirstOffender(xs, p, Diff(xs, ys)[0])
  {
    var fails := x => !p(x);
    FilterAgrees(x => x !in ys, fails, xs);
    var i :| 0 <= i < |xs| && !p(xs[i]);
    assert xs[i] in Diff(xs, ys);
    FilterHead(fails, xs);
    var j :| 0 <= j < |xs| && xs[j] == Filter(fails, xs)[0] && fails(xs[j])
             && forall k :: 0 <= k < j ==> !fails(xs[k]);
    assert AllOf(xs[..j], p) by {
      forall k | 0 <= k < j ensures p(xs[..j][k]) {
        assert !fails(xs[k]);
      }
    }
  }

  /** array_unique leaves exactly one value iff the list is non-empty and all its
      elements are equal. */
  lemma UniqueSingleton<T(!new)>(xs: seq<T>)
    ensures |Unique(xs)| == 1 <==> |xs| > 0 && forall i :: 0 <= i < |xs| ==> xs[i] == xs[0]
  {
  }

  /** Whether every element passes p does not depend on the order of the list. */
  lemma AllOfPermutation<T>(xs: seq<T>, ys: seq<T>, p: T -> bool)
    requires multiset(xs) == multiset(ys)
    ensures AllOf(xs, p) <==> AllOf(ys, p)
  {
    forall x | x in xs ensures x in ys {
      assert x in multiset(xs);
    }
    forall y | y in ys ensures y in xs {
      assert y in multiset(ys);
    }
    if AllOf(xs, p) {
      forall j | 0 <= j < |ys| ensures p(ys[j]) {
        assert ys[j] in xs;
      }
    }
    if AllOf(ys, p) {
      forall j | 0 <= j < |xs| ensures p(xs[j]) {
        assert xs[j] in ys;
      }
    }
  }
}
