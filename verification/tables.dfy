/** Column-and-row operations the dashboard performs on its pandas tables:
    boolean-mask selection (`df.loc[mask]`, `dropna`) and per-row `apply`. */
module Tables {

  /** A cell that may be missing; `None` stands for pandas' NaN. */
  datatype Option<+T> = None | Some(value: T)

  /** The rows of `s` that satisfy `p`, in their original order. */
  function Filter<T(!new)>(p: T -> bool, s: seq<T>): (r: seq<T>)
    ensures |r| <= |s|
    ensures forall x :: x in r <==> x in s && p(x)
  {
    if s == [] then []
    else
      assert forall x :: x in s <==> x == s[0] || x in s[1..];
      (if p(s[0]) then [s[0]] else []) + Filter(p, s[1..])
  }

  /** `f` applied to every row of `s` (a pandas `Series.apply`). */
  function Apply<A, B>(f: A -> B, s: seq<A>): (r: seq<B>)
    ensures |r| == |s|
    ensures forall i :: 0 <= i < |s| ==> r[i] == f(s[i])
  {
    if s == [] then [] else [f(s[0])] + Apply(f, s[1..])
  }

  /** Selecting from a concatenation selects from each part: the order of rows is kept. */
  lemma {:induction false} FilterConcat<T(!new)>(p: T -> bool, a: seq<T>, b: seq<T>)
    ensures Filter(p, a + b) == Filter(p, a) + Filter(p, b)
  {
    if a == [] {
      assert a + b == b;
    } else {
      assert (a + b)[0] == a[0];
      assert (a + b)[1..] == a[1..] + b;
      FilterConcat(p, a[1..], b);
    }
  }

  /** A mask that no row satisfies selects nothing. */
  lemma {:induction false} FilterNone<T(!new)>(p: T -> bool, s: seq<T>)
    requires forall x :: x in s ==> !p(x)
    ensures Filter(p, s) == []
  {
    if s != [] {
      assert s[0] in s;
      assert forall x :: x in s[1..] ==> x in s;
      FilterNone(p, s[1..]);
    }
  }

  /** A stricter mask selects no more rows than a looser one. */
  lemma {:induction false} FilterStricter<T(!new)>(p: T -> bool, q: T -> bool, s: seq<T>)
    requires forall x :: x in s && p(x) ==> q(x)
    ensures |Filter(p, s)| <= |Filter(q, s)|
    ensures multiset(Filter(p, s)) <= multiset(Filter(q, s))
  {
    if s != [] {
      assert forall x :: x in s[1..] ==> x in s;
      FilterStricter(p, q, s[1..]);
    }
  }

  /** Applying to a concatenation applies to each part. */
  lemma {:induction false} ApplyConcat<A, B>(f: A -> B, a: seq<A>, b: seq<A>)
    ensures Apply(f, a + b) == Apply(f, a) + Apply(f, b)
  {
  }

  /** The rows of an applied column are exactly the images of the input rows. */
  lemma ApplyMembers<A, B>(f: A -> B, s: seq<A>)
    ensures forall y :: y in Apply(f, s) ==> exists x :: x in s && y == f(x)
    ensures forall x :: x in s ==> f(x) in Apply(f, s)
  {
    var r := Apply(f, s);
    forall y | y in r
      ensures exists x :: x in s && y == f(x)
    {
      var i :| 0 <= i < |r| && r[i] == y;
      assert s[i] in s;
    }
    forall x | x in s
      ensures f(x) in r
    {
      var i :| 0 <= i < |s| && s[i] == x;
      assert r[i] == f(x);
    }
  }

  /** Counting the values of a column over a sub-selection of rows never exceeds
      the count over all rows, value by value. */
  lemma {:induction false} ApplyFilterCounts<A(!new), B>(f: A -> B, q: A -> bool, s: seq<A>)
    ensures multiset(Apply(f, Filter(q, s))) <= multiset(Apply(f, s))
  {
    if s != [] {
      var tail := Filter(q, s[1..]);
      ApplyFilterCounts(f, q, s[1..]);
      assert Apply(f, s) == [f(s[0])] + Apply(f, s[1..]);
      assert multiset(Apply(f, s)) == multiset{f(s[0])} + multiset(Apply(f, s[1..]));
      if q(s[0]) {
        var kept := Filter(q, s);
        assert kept == [s[0]] + tail;
        assert kept[0] == s[0] && kept[1..] == tail;
        assert Apply(f, kept) == [f(s[0])] + Apply(f, tail);
      } else {
        assert [] + tail == tail;
        assert Filter(q, s) == tail;
      }
    }
  }
}
