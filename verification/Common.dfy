/** Option and finite sums, shared by every other module. */
module Common {

  /** Database ids are opaque to the program except for equality and, in the
      movement ledger, their order: a UUID is read as its 128-bit value. */
  type Id = nat

  datatype Option<+T> = None | Some(value: T)

  function Max(a: int, b: int): int {
    if a > b then a else b
  }

  function Min(a: int, b: int): int {
    if a < b then a else b
  }

  function Abs(a: int): int {
    if a < 0 then -a else a
  }

  lemma MulOrder(a: int, b: int, d: int)
    requires a <= b && d >= 0
    ensures a * d <= b * d
  {}

  lemma MulLess(a: int, b: int, d: int)
    requires a < b && d >= 0
    ensures a * d + d <= b * d
  {
    MulOrder(a + 1, b, d);
    assert (a + 1) * d == a * d + d;
  }

  function SumBy<T>(s: seq<T>, f: T -> int): int {
    if s == [] then 0 else f(s[0]) + SumBy(s[1..], f)
  }

  lemma {:induction false} SumByAppend<T>(s: seq<T>, t: seq<T>, f: T -> int)
    ensures SumBy(s + t, f) == SumBy(s, f) + SumBy(t, f)
  {
    if s == [] {
      assert s + t == t;
    } else {
      assert (s + t)[0] == s[0] && (s + t)[1..] == s[1..] + t;
      SumByAppend(s[1..], t, f);
    }
  }

  /** The step of a running-total loop. */
  lemma SumByStep<T>(s: seq<T>, i: nat, f: T -> int)
    requires i < |s|
    ensures SumBy(s[..i + 1], f) == SumBy(s[..i], f) + f(s[i])
  {
    assert s[..i + 1] == s[..i] + [s[i]];
    SumByAppend(s[..i], [s[i]], f);
  }

  /** Dropping one occurrence drops one from the multiset. */
  lemma MultisetWithout<T>(t: seq<T>, i: nat)
    requires i < |t|
    ensures multiset(t[..i] + t[i + 1..]) == multiset(t) - multiset{t[i]}
  {
    assert t == t[..i] + [t[i]] + t[i + 1..];
  }

  lemma {:induction false} SumByPermutation<T>(s: seq<T>, t: seq<T>, f: T -> int)
    requires multiset(s) == multiset(t)
    ensures SumBy(s, f) == SumBy(t, f)
  {
    if s == [] {
      assert |multiset(t)| == 0;
    } else {
      var i := IndexIn(s[0], t, s);
      var rest := t[..i] + t[i + 1..];
      MultisetTail(s);
      MultisetWithout(t, i);
      SumByPermutation(s[1..], rest, f);
      SumByWithout(t, i, f);
    }
  }

  lemma MultisetTail<T>(s: seq<T>)
    requires s != []
    ensures multiset(s[1..]) == multiset(s) - multiset{s[0]}
  {
    MultisetWithout(s, 0);
    assert s[1..] == s[..0] + s[1..];
  }

  lemma IndexIn<T>(x: T, t: seq<T>, s: seq<T>) returns (i: nat)
    requires x in s && multiset(s) == multiset(t)
    ensures i < |t| && t[i] == x
  {
    assert x in multiset(t);
    i :| 0 <= i < |t| && t[i] == x;
  }

  lemma SumByWithout<T>(t: seq<T>, i: nat, f: T -> int)
    requires i < |t|
    ensures SumBy(t, f) == f(t[i]) + SumBy(t[..i] + t[i + 1..], f)
  {
    assert t == t[..i] + t[i..];
    SumByAppend(t[..i], t[i..], f);
    SumByAppend(t[..i], t[i + 1..], f);
    assert t[i..][1..] == t[i + 1..];
  }

  /** Summing a mapped sequence is summing the composition. */
  lemma {:induction false} SumByMapped<S, T>(s: seq<S>, t: seq<T>, f: T -> int, g: S -> int)
    requires |s| == |t| && forall i | 0 <= i < |s| :: g(s[i]) == f(t[i])
    ensures SumBy(s, g) == SumBy(t, f)
  {
    if s == [] {
    } else {
      forall i | 0 <= i < |s[1..]| ensures g(s[1..][i]) == f(t[1..][i]) {
        assert s[1..][i] == s[i + 1] && t[1..][i] == t[i + 1];
      }
      SumByMapped(s[1..], t[1..], f, g);
    }
  }

  lemma {:induction false} SumByEqual<T>(s: seq<T>, f: T -> int, g: T -> int)
    requires forall x <- s :: f(x) == g(x)
    ensures SumBy(s, f) == SumBy(s, g)
  {
    if s == [] {
    } else {
      SumByEqual(s[1..], f, g);
    }
  }

  /** Sums distribute over an integer combination of two measures. */
  lemma {:induction false} SumByLinear<T>(s: seq<T>, f: T -> int, g: T -> int, h: T -> int, a: int, b: int)
    requires forall x <- s :: h(x) == a * f(x) + b * g(x)
    ensures SumBy(s, h) == a * SumBy(s, f) + b * SumBy(s, g)
  {
    if s == [] {
    } else {
      SumByLinear(s[1..], f, g, h, a, b);
      assert h(s[0]) == a * f(s[0]) + b * g(s[0]);
      assert a * (f(s[0]) + SumBy(s[1..], f)) == a * f(s[0]) + a * SumBy(s[1..], f);
      assert b * (g(s[0]) + SumBy(s[1..], g)) == b * g(s[0]) + b * SumBy(s[1..], g);
    }
  }

  lemma {:induction false} SumByNonNegative<T>(s: seq<T>, f: T -> int)
    requires forall x <- s :: f(x) >= 0
    ensures SumBy(s, f) >= 0
  {
    if s == [] {
    } else {
      SumByNonNegative(s[1..], f);
    }
  }

  function Filter<T>(s: seq<T>, p: T -> bool): (r: seq<T>)
    ensures forall x <- r :: x in s && p(x)
  {
    if s == [] then [] else (if p(s[0]) then [s[0]] else []) + Filter(s[1..], p)
  }

  lemma {:induction false} FilterAppend<T>(s: seq<T>, t: seq<T>, p: T -> bool)
    ensures Filter(s + t, p) == Filter(s, p) + Filter(t, p)
  {
    if s == [] {
      assert s + t == t;
    } else {
      assert (s + t)[0] == s[0] && (s + t)[1..] == s[1..] + t;
      FilterAppend(s[1..], t, p);
    }
  }

  lemma {:induction false} FilterAll<T>(s: seq<T>, p: T -> bool)
    requires forall x <- s :: p(x)
    ensures Filter(s, p) == s
  {
    if s == [] {
    } else {
      FilterAll(s[1..], p);
    }
  }

  lemma {:induction false} FilterNone<T>(s: seq<T>, p: T -> bool)
    requires forall x <- s :: !p(x)
    ensures Filter(s, p) == []
  {
    if s == [] {
    } else {
      FilterNone(s[1..], p);
    }
  }

  /** A condition that holds exactly on a stretch selects that stretch. */
  lemma FilterSlice<T>(s: seq<T>, p: T -> bool, a: nat, b: nat)
    requires a <= b <= |s|
    requires forall i | 0 <= i < |s| :: p(s[i]) <==> a <= i < b
    ensures Filter(s, p) == s[a..b]
  {
    SelectedOn(s, p, 0, a, false);
    SelectedOn(s, p, a, b, true);
    SelectedOn(s, p, b, |s|, false);
    FilterMiddle(s[0..a], s[a..b], s[b..|s|], p);
    InThree(s, a, b);
  }

  lemma SelectedOn<T>(s: seq<T>, p: T -> bool, a: nat, b: nat, selected: bool)
    requires a <= b <= |s| && forall i | a <= i < b :: p(s[i]) == selected
    ensures forall x <- s[a..b] :: p(x) == selected
  {
    forall x <- s[a..b] ensures p(x) == selected { var i := IndexBetween(s, a, b, x); }
  }

  lemma InThree<T>(s: seq<T>, a: nat, b: nat)
    requires a <= b <= |s|
    ensures s[0..a] + s[a..b] + s[b..|s|] == s
  {}

  lemma IndexBetween<T>(s: seq<T>, a: nat, b: nat, x: T) returns (i: nat)
    requires a <= b <= |s| && x in s[a..b]
    ensures a <= i < b && s[i] == x
  {
    var k :| 0 <= k < b - a && s[a..b][k] == x;
    i := a + k;
  }

  lemma FilterMiddle<T>(before: seq<T>, slice: seq<T>, after: seq<T>, p: T -> bool)
    requires (forall x <- before :: !p(x)) && (forall x <- slice :: p(x)) && forall x <- after :: !p(x)
    ensures Filter(before + slice + after, p) == slice
  {
    FilterAppend(before + slice, after, p);
    FilterAppend(before, slice, p);
    FilterNone(before, p);
    FilterAll(slice, p);
    FilterNone(after, p);
  }

  lemma FilterCons<T>(x: T, s: seq<T>, p: T -> bool)
    ensures Filter([x] + s, p) == (if p(x) then [x] else []) + Filter(s, p)
  {
    assert ([x] + s)[1..] == s;
  }

  lemma {:induction false} FilterIs<T>(s: seq<T>, p: T -> bool)
    ensures forall x :: x in Filter(s, p) <==> x in s && p(x)
  {
    if s == [] {
    } else {
      FilterIs(s[1..], p);
      assert s == [s[0]] + s[1..];
    }
  }

  /** Filtering twice is filtering by both conditions. */
  lemma {:induction false} FilterBoth<T>(s: seq<T>, p: T -> bool, q: T -> bool, both: T -> bool)
    requires forall x <- s :: both(x) <==> p(x) && q(x)
    ensures Filter(Filter(s, p), q) == Filter(s, both)
  {
    if s == [] {
    } else {
      FilterBoth(s[1..], p, q, both);
      if p(s[0]) { FilterCons(s[0], Filter(s[1..], p), q); }
      assert [] + Filter(s[1..], p) == Filter(s[1..], p);
    }
  }

  lemma {:induction false} SumFilter<T>(s: seq<T>, p: T -> bool, f: T -> int, g: T -> int)
    requires forall x <- s :: g(x) == if p(x) then f(x) else 0
    ensures SumBy(Filter(s, p), f) == SumBy(s, g)
  {
    if s == [] {
    } else {
      SumFilter(s[1..], p, f, g);
      SumByAppend(if p(s[0]) then [s[0]] else [], Filter(s[1..], p), f);
      assert SumBy([s[0]], f) == f(s[0]) + SumBy([s[0]][1..], f);
    }
  }

  lemma {:induction false} CountFilter<T>(s: seq<T>, p: T -> bool, g: T -> int)
    requires forall x <- s :: g(x) == if p(x) then 1 else 0
    ensures |Filter(s, p)| == SumBy(s, g)
  {
    if s == [] {
    } else {
      CountFilter(s[1..], p, g);
    }
  }
}
