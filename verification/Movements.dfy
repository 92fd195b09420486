/** The movement ledger, merged page by page from one bounded query per business
    (src/portal/analytics/inventory/inventory-report.service.ts,
    src/portal/analytics/reports/inventory.sql.ts). */
module MovementLedger {
  import opened Common
  import opened Grouping

  /** A ledger row; `product` and `kind` are what the optional filter narrows on. */
  datatype Row = Row(id: Id, createdAt: int, branch: Id, product: Id, kind: int)

  /** ORDER BY created_at DESC, id DESC. */
  predicate Before(a: Row, b: Row) {
    a.createdAt > b.createdAt || (a.createdAt == b.createdAt && a.id > b.id)
  }

  function Insert(x: Row, s: seq<Row>): seq<Row> {
    if s == [] then [x] else if Before(x, s[0]) then [x] + s else [s[0]] + Insert(x, s[1..])
  }

  function InsertAll(xs: seq<Row>, s: seq<Row>): seq<Row> {
    if xs == [] then s else Insert(xs[0], InsertAll(xs[1..], s))
  }

  function Sort(xs: seq<Row>): seq<Row> { InsertAll(xs, []) }

  function Take<T>(s: seq<T>, n: nat): seq<T> { if n <= |s| then s[..n] else s }

  /** Array.prototype.slice for 0 <= lo <= hi. */
  function Slice<T>(s: seq<T>, lo: nat, hi: nat): seq<T>
    requires lo <= hi
  {
    if lo >= |s| then [] else if hi >= |s| then s[lo..] else s[lo..hi]
  }

  /** `... ORDER BY ... LIMIT n`. */
  function Top(rows: seq<Row>, n: nat): seq<Row> { Take(Sort(rows), n) }

  const MAX_MERGE_ROWS := 2000

  datatype Page = Page(data: seq<Row>, total: nat, totalPages: nat)

  function TotalPages(total: nat, pageSize: nat): nat
    requires pageSize > 0
  {
    if (total + pageSize - 1) / pageSize < 1 then 1 else (total + pageSize - 1) / pageSize
  }

  /** `matching[i]` is what business i's WHERE clause selects. */
  method Movements(matching: seq<seq<Row>>, page: nat, pageSize: nat) returns (out: Option<Page>)
    requires page >= 1 && pageSize >= 1
    requires DistinctIds(Concat(matching))
    ensures out.None? <==> page * pageSize > 2000
    ensures out.Some? ==> out.value.data == PageOf(matching, page, pageSize)
    ensures out.Some? ==> out.value.total == |Concat(matching)|
    ensures out.Some? ==> out.value.totalPages == TotalPages(|Concat(matching)|, pageSize)
  {
    var reach := page * pageSize;
    if reach > MAX_MERGE_ROWS {
      return None;
    }
    var rows: seq<Row>, total: nat := [], 0;
    for i := 0 to |matching|
      invariant rows == Concat(Fetched(matching[..i], reach))
      invariant total == |Concat(matching[..i])|
    {
      total := total + |matching[i]|;
      rows := rows + Top(matching[i], reach);
      ConcatStep(matching, i);
      assert Fetched(matching[..i + 1], reach) == Fetched(matching[..i], reach) + [Top(matching[i], reach)];
      ConcatSnoc(Fetched(matching[..i], reach), Top(matching[i], reach));
    }
    assert matching[..|matching|] == matching;
    rows := Sort(rows);
    var first := (page - 1) * pageSize;
    PageFromFetched(matching, page, pageSize, first, reach);
    out := Some(Page(Slice(rows, first, reach), total, TotalPages(total, pageSize)));
  }

  /** The bounded fetches are enough for the page. */
  lemma PageFromFetched(matching: seq<seq<Row>>, page: nat, pageSize: nat, first: nat, reach: nat)
    requires page >= 1 && first == (page - 1) * pageSize && reach == page * pageSize
    requires DistinctIds(Concat(matching))
    ensures first <= reach
    ensures Slice(Sort(Concat(Fetched(matching, reach))), first, reach) == PageOf(matching, page, pageSize)
  {
    MulOrder(page - 1, page, pageSize);
    MergedPrefix(matching, reach);
    SliceOfTake(Sort(Concat(Fetched(matching, reach))), Sort(Concat(matching)), reach, first);
  }

  lemma ConcatSnoc<T>(ss: seq<seq<T>>, s: seq<T>)
    ensures Concat(ss + [s]) == Concat(ss) + s
  {
    ConcatStep(ss + [s], |ss|);
    assert (ss + [s])[..|ss| + 1] == ss + [s] && (ss + [s])[..|ss|] == ss;
  }

  lemma SliceOfTake<T>(a: seq<T>, b: seq<T>, n: nat, lo: nat)
    requires Take(a, n) == Take(b, n) && lo <= n
    ensures Slice(a, lo, n) == Slice(b, lo, n)
  {
    assert Slice(a, lo, n) == Slice(Take(a, n), lo, n);
    assert Slice(b, lo, n) == Slice(Take(b, n), lo, n);
  }

  function Fetched(matching: seq<seq<Row>>, reach: nat): (r: seq<seq<Row>>)
    ensures |r| == |matching|
    ensures forall i | 0 <= i < |matching| :: r[i] == Top(matching[i], reach)
  {
    seq(|matching|, i requires 0 <= i < |matching| => Top(matching[i], reach))
  }

  /** The page as it would be cut from the whole ledger, globally sorted. */
  function PageOf(matching: seq<seq<Row>>, page: nat, pageSize: nat): seq<Row>
    requires page >= 1
  {
    MulOrder(page - 1, page, pageSize);
    Slice(Sort(Concat(matching)), (page - 1) * pageSize, page * pageSize)
  }

  // ----- What the WHERE clauses select -----

  datatype Narrowing = Narrowing(kind: Option<int>, product: Option<Id>)

  datatype Scoped = Scoped(branches: seq<Id>, fromUtc: int, toUtc: int)

  predicate MovementWhere(r: Row, b: Scoped, f: Narrowing) {
    && r.branch in b.branches && b.fromUtc <= r.createdAt < b.toUtc
    && (f.kind.Some? ==> r.kind == f.kind.value) && (f.product.Some? ==> r.product == f.product.value)
  }

  function Matching(table: seq<Row>, bs: seq<Scoped>, f: Narrowing): (r: seq<seq<Row>>)
    ensures |r| == |bs| && forall i | 0 <= i < |bs| :: r[i] == Filter(table, (x: Row) => MovementWhere(x, bs[i], f))
  {
    seq(|bs|, i requires 0 <= i < |bs| => Filter(table, (x: Row) => MovementWhere(x, bs[i], f)))
  }

  lemma {:induction false} FilterSubset(s: seq<Row>, p: Row -> bool)
    ensures multiset(Filter(s, p)) <= multiset(s)
  {
    if s == [] {
    } else {
      FilterSubset(s[1..], p);
      assert s == [s[0]] + s[1..];
    }
  }

  /** A branch belongs to one business, so no movement is fetched twice. */
  lemma {:induction false} MatchingDistinct(table: seq<Row>, bs: seq<Scoped>, f: Narrowing)
    requires DistinctIds(table)
    requires forall i, j | 0 <= i < j < |bs| :: forall x <- bs[i].branches :: x !in bs[j].branches
    ensures DistinctIds(Concat(Matching(table, bs, f)))
    ensures forall x <- Concat(Matching(table, bs, f)) :: x in table && exists b <- bs :: x.branch in b.branches
  {
    if bs == [] {
    } else {
      var p := (x: Row) => MovementWhere(x, bs[0], f);
      var first, rest := Filter(table, p), Concat(Matching(table, bs[1..], f));
      assert Matching(table, bs, f)[1..] == Matching(table, bs[1..], f);
      BranchesApart(bs);
      MatchingDistinct(table, bs[1..], f);
      FilterSubset(table, p);
      SubsetDistinct(table, first);
      forall x <- first, y <- rest ensures x.id != y.id {
        var b :| b in bs[1..] && y.branch in b.branches;
        assert x.branch != y.branch;
        RowsApart(table, x, y);
      }
      UnionDistinct(first, rest);
    }
  }

  lemma BranchesApart(bs: seq<Scoped>)
    requires bs != [] && forall i, j | 0 <= i < j < |bs| :: forall x <- bs[i].branches :: x !in bs[j].branches
    ensures forall b <- bs[1..] :: forall x <- bs[0].branches :: x !in b.branches
    ensures forall i, j | 0 <= i < j < |bs[1..]| :: forall x <- bs[1..][i].branches :: x !in bs[1..][j].branches
  {
    forall b <- bs[1..], x <- bs[0].branches ensures x !in b.branches {
      var j :| 0 <= j < |bs[1..]| && bs[1..][j] == b;
      assert bs[j + 1] == b;
    }
  }

  lemma RowsApart(table: seq<Row>, x: Row, y: Row)
    requires DistinctIds(table) && x in table && y in table && x != y
    ensures x.id != y.id
  {
    var i :| 0 <= i < |table| && table[i] == x;
    var j :| 0 <= j < |table| && table[j] == y;
  }

  lemma UnionDistinct(a: seq<Row>, b: seq<Row>)
    requires DistinctIds(a) && DistinctIds(b) && forall x <- a, y <- b :: x.id != y.id
    ensures DistinctIds(a + b)
  {}

  // ----- Sorting -----

  ghost predicate Sorted(s: seq<Row>) { forall i, j | 0 <= i < j < |s| :: Before(s[i], s[j]) }

  ghost predicate DistinctIds(s: seq<Row>) { forall i, j | 0 <= i < j < |s| :: s[i].id != s[j].id }

  /** Distinctness in a form that ignores order. */
  ghost predicate IdsApart(s: seq<Row>) {
    && (forall x <- s :: multiset(s)[x] == 1)
    && (forall x <- s, y <- s :: x != y ==> x.id != y.id)
  }

  lemma {:induction false} DistinctApart(s: seq<Row>)
    ensures DistinctIds(s) <==> IdsApart(s)
  {
    if s == [] {
    } else {
      var rest := s[1..];
      assert s == [s[0]] + rest;
      DistinctApart(rest);
      assert DistinctIds(s) <==> DistinctIds(rest) && forall y <- rest :: y.id != s[0].id by {
        if DistinctIds(s) {
          forall y <- rest ensures y.id != s[0].id { var j :| 0 <= j < |rest| && rest[j] == y; assert s[j + 1] == y; }
        }
      }
      assert multiset(s) == multiset{s[0]} + multiset(rest);
      ApartSplit(s);
    }
  }

  lemma ApartSplit(s: seq<Row>)
    requires s != []
    ensures IdsApart(s) <==> IdsApart(s[1..]) && forall y <- s[1..] :: y.id != s[0].id
  {
    var x, rest := s[0], s[1..];
    assert s == [x] + rest;
    assert multiset(s) == multiset{x} + multiset(rest);
    assert forall y :: y in s <==> y == x || y in rest;
    if IdsApart(s) {
      assert multiset(s)[x] == 1 && x !in multiset(rest);
      assert x !in rest;
      forall y <- rest ensures multiset(rest)[y] == 1 { assert multiset(s)[y] == 1; }
    }
    if IdsApart(rest) && forall y <- rest :: y.id != x.id {
      assert x !in rest;
      forall y <- s ensures multiset(s)[y] == 1 { if y in rest { assert multiset(rest)[y] == 1; } }
    }
  }

  lemma PermutationDistinct(a: seq<Row>, b: seq<Row>)
    requires multiset(a) == multiset(b) && DistinctIds(a)
    ensures DistinctIds(b)
  {
    DistinctApart(a);
    DistinctApart(b);
    assert forall x :: x in b <==> x in multiset(b);
    assert forall x :: x in a <==> x in multiset(a);
  }

  lemma {:induction false} InsertKeeps(x: Row, s: seq<Row>)
    ensures multiset(Insert(x, s)) == multiset(s) + multiset{x}
  {
    if s != [] && !Before(x, s[0]) {
      InsertKeeps(x, s[1..]);
      assert s == [s[0]] + s[1..];
    }
  }

  lemma {:induction false} InsertSorted(x: Row, s: seq<Row>)
    requires Sorted(s) && forall y <- s :: y.id != x.id
    ensures Sorted(Insert(x, s))
  {
    if s != [] && !Before(x, s[0]) {
      InsertSorted(x, s[1..]);
      InsertKeeps(x, s[1..]);
      var r := Insert(x, s[1..]);
      forall y <- r ensures Before(s[0], y) {
        assert y in multiset(r);
      }
    }
  }

  lemma {:induction false} SortKeeps(xs: seq<Row>)
    ensures multiset(Sort(xs)) == multiset(xs) && |Sort(xs)| == |xs|
  {
    if xs == [] {
    } else {
      SortKeeps(xs[1..]);
      InsertKeeps(xs[0], Sort(xs[1..]));
      assert xs == [xs[0]] + xs[1..];
    }
    assert |multiset(Sort(xs))| == |Sort(xs)| && |multiset(xs)| == |xs|;
  }

  lemma {:induction false} SortSorted(xs: seq<Row>)
    requires DistinctIds(xs)
    ensures Sorted(Sort(xs))
  {
    if xs == [] {
    } else {
      SortSorted(xs[1..]);
      SortKeeps(xs[1..]);
      forall y <- Sort(xs[1..]) ensures y.id != xs[0].id {
        assert y in multiset(xs[1..]);
        var j :| 0 <= j < |xs[1..]| && xs[1..][j] == y;
        assert xs[j + 1] == y;
      }
      InsertSorted(xs[0], Sort(xs[1..]));
    }
  }

  /** Two strictly sorted arrangements of the same rows are the same. */
  lemma {:induction false} SortedUnique(a: seq<Row>, b: seq<Row>)
    requires Sorted(a) && Sorted(b) && multiset(a) == multiset(b)
    ensures a == b
  {
    if a == [] {
      assert |multiset(b)| == 0;
    } else {
      var i := IndexIn(a[0], b, a);
      var j := IndexIn(b[0], a, b);
      assert i == 0;
      MultisetTail(a);
      MultisetTail(b);
      SortedUnique(a[1..], b[1..]);
    }
  }

  lemma SortPermutation(a: seq<Row>, b: seq<Row>)
    requires DistinctIds(a) && multiset(a) == multiset(b)
    ensures Sort(a) == Sort(b)
  {
    PermutationDistinct(a, b);
    SortSorted(a);
    SortSorted(b);
    SortKeeps(a);
    SortKeeps(b);
    SortedUnique(Sort(a), Sort(b));
  }

  // ----- The first n of a union -----

  lemma {:induction false} TakeInsert(x: Row, s: seq<Row>, n: nat)
    ensures Take(Insert(x, s), n) == Take(Insert(x, Take(s, n)), n)
  {
    if n > 0 && s != [] && !Before(x, s[0]) {
      TakeInsert(x, s[1..], n - 1);
      assert Take(s, n) == [s[0]] + Take(s[1..], n - 1);
      assert Take(s, n)[1..] == Take(s[1..], n - 1);
      TakeCons(s[0], Insert(x, s[1..]), n);
      TakeCons(s[0], Insert(x, Take(s[1..], n - 1)), n);
    }
  }

  lemma TakeCons(x: Row, s: seq<Row>, n: nat)
    requires n > 0
    ensures Take([x] + s, n) == [x] + Take(s, n - 1)
  {}

  lemma {:induction false} TakeInsertAll(xs: seq<Row>, s: seq<Row>, n: nat)
    ensures Take(InsertAll(xs, s), n) == Take(InsertAll(xs, Take(s, n)), n)
  {
    if xs == [] {
    } else {
      TakeInsertAll(xs[1..], s, n);
      TakeInsert(xs[0], InsertAll(xs[1..], s), n);
      TakeInsert(xs[0], InsertAll(xs[1..], Take(s, n)), n);
    }
  }

  lemma {:induction false} SortAppend(xs: seq<Row>, ys: seq<Row>)
    ensures Sort(xs + ys) == InsertAll(xs, Sort(ys))
  {
    if xs == [] {
      assert xs + ys == ys;
    } else {
      assert (xs + ys)[0] == xs[0] && (xs + ys)[1..] == xs[1..] + ys;
      SortAppend(xs[1..], ys);
    }
  }

  lemma TopSubset(ys: seq<Row>, n: nat)
    ensures multiset(Top(ys, n)) <= multiset(ys)
  {
    SortKeeps(ys);
    var s := Sort(ys);
    assert n <= |s| ==> s == s[..n] + s[n..];
  }

  lemma TopSorted(ys: seq<Row>, n: nat)
    requires DistinctIds(ys)
    ensures DistinctIds(Top(ys, n)) && Sort(Top(ys, n)) == Top(ys, n)
  {
    SortSorted(ys);
    SortKeeps(ys);
    PermutationDistinct(ys, Sort(ys));
    var t := Top(ys, n);
    SortSorted(t);
    SortKeeps(t);
    SortedUnique(Sort(t), t);
  }

  /** The first n of a union need only the first n of its second part. */
  lemma TopOfUnion(xs: seq<Row>, ys: seq<Row>, n: nat)
    requires DistinctIds(ys)
    ensures Top(xs + ys, n) == Top(xs + Top(ys, n), n)
  {
    SortAppend(xs, ys);
    TakeInsertAll(xs, Sort(ys), n);
    TopSorted(ys, n);
    SortAppend(xs, Top(ys, n));
  }

  lemma TopCommutes(xs: seq<Row>, ys: seq<Row>, n: nat)
    requires DistinctIds(xs + ys)
    ensures Top(xs + ys, n) == Top(ys + xs, n)
  {
    SortPermutation(xs + ys, ys + xs);
  }

  lemma PartsDistinct(xs: seq<Row>, ys: seq<Row>)
    requires DistinctIds(xs + ys)
    ensures DistinctIds(xs) && DistinctIds(ys)
  {
    forall i, j | 0 <= i < j < |xs| ensures xs[i].id != xs[j].id {
      assert (xs + ys)[i] == xs[i] && (xs + ys)[j] == xs[j];
    }
    forall i, j | 0 <= i < j < |ys| ensures ys[i].id != ys[j].id {
      assert (xs + ys)[|xs| + i] == ys[i] && (xs + ys)[|xs| + j] == ys[j];
    }
  }

  /** Dropping rows keeps ids distinct. */
  lemma SubsetDistinct(a: seq<Row>, b: seq<Row>)
    requires DistinctIds(a) && multiset(b) <= multiset(a)
    ensures DistinctIds(b)
  {
    DistinctApart(a);
    DistinctApart(b);
    forall x <- b ensures multiset(b)[x] == 1 && x in a {
      assert x in multiset(b) && x in multiset(a);
    }
  }

  lemma {:induction false} FetchedSubset(matching: seq<seq<Row>>, n: nat)
    ensures multiset(Concat(Fetched(matching, n))) <= multiset(Concat(matching))
  {
    if matching == [] {
    } else {
      FetchedSubset(matching[1..], n);
      TopSubset(matching[0], n);
      assert Fetched(matching, n)[1..] == Fetched(matching[1..], n);
    }
  }

  /** The global first n are the first n of the per-business first n's. */
  lemma {:induction false} MergedPrefix(matching: seq<seq<Row>>, n: nat)
    requires DistinctIds(Concat(matching))
    ensures Top(Concat(Fetched(matching, n)), n) == Top(Concat(matching), n)
  {
    if matching == [] {
    } else {
      var x, rest := matching[0], matching[1..];
      var t, rest' := Top(x, n), Concat(Fetched(rest, n));
      assert Fetched(matching, n)[1..] == Fetched(rest, n);
      PartsDistinct(x, Concat(rest));
      MergedPrefix(rest, n);
      FetchedSubset(rest, n);
      TopSubset(x, n);
      SubsetDistinct(x + Concat(rest), t + rest');
      SubsetDistinct(x + Concat(rest), x + rest');
      PartsDistinct(t, rest');
      // t + rest'  ->  rest' + t  ->  rest' + x  ->  x + rest'  ->  x + Concat(rest)
      TopCommutes(t, rest', n);
      TopOfUnion(rest', x, n);
      TopCommutes(x, rest', n);
      TopOfUnion(x, rest', n);
      TopOfUnion(x, Concat(rest), n);
    }
  }

  // ----- Whole ledger -----

  /** Pages first..last, one after the other. */
  function Pages(matching: seq<seq<Row>>, pageSize: nat, n: nat): seq<Row> {
    if n == 0 then [] else Pages(matching, pageSize, n - 1) + PageOf(matching, n, pageSize)
  }

  lemma {:induction false} PagesArePrefix(matching: seq<seq<Row>>, pageSize: nat, n: nat)
    ensures Pages(matching, pageSize, n) == Take(Sort(Concat(matching)), n * pageSize)
  {
    if n == 0 {
    } else {
      PagesArePrefix(matching, pageSize, n - 1);
      PageExtends(matching, pageSize, n, (n - 1) * pageSize, n * pageSize);
    }
  }

  lemma PageExtends(matching: seq<seq<Row>>, pageSize: nat, n: nat, lo: nat, hi: nat)
    requires n > 0 && lo == (n - 1) * pageSize && hi == n * pageSize
    ensures Take(Sort(Concat(matching)), lo) + PageOf(matching, n, pageSize) == Take(Sort(Concat(matching)), hi)
  {
    MulOrder(n - 1, n, pageSize);
    TakeThenSlice(Sort(Concat(matching)), lo, hi);
  }

  lemma TakeThenSlice<T>(s: seq<T>, lo: nat, hi: nat)
    requires lo <= hi
    ensures Take(s, lo) + Slice(s, lo, hi) == Take(s, hi)
  {}

  lemma CeilingCovers(total: nat, pageSize: nat)
    requires pageSize > 0
    ensures total <= TotalPages(total, pageSize) * pageSize
  {
    var q := (total + pageSize - 1) / pageSize;
    assert total + pageSize - 1 == q * pageSize + (total + pageSize - 1) % pageSize;
    if q < 1 { assert q == 0; }
  }

  /** Pages 1..totalPages list the whole ledger: every row once, in order. */
  lemma PagesCoverLedger(matching: seq<seq<Row>>, pageSize: nat)
    requires pageSize > 0 && DistinctIds(Concat(matching))
    ensures var all := Pages(matching, pageSize, TotalPages(|Concat(matching)|, pageSize));
            && all == Sort(Concat(matching))
            && Sorted(all) && multiset(all) == multiset(Concat(matching))
  {
    var rows := Concat(matching);
    PagesArePrefix(matching, pageSize, TotalPages(|rows|, pageSize));
    CeilingCovers(|rows|, pageSize);
    SortKeeps(rows);
    SortSorted(rows);
  }

  // ----- The ledger, row by row -----

  /** A movement of one of the branches, made in the window, of the kind and product asked for. */
  predicate Wanted(r: Row, b: Scoped, f: Narrowing) {
    && r.branch in b.branches && b.fromUtc <= r.createdAt && r.createdAt < b.toUtc
    && (f.kind == None || f.kind == Some(r.kind)) && (f.product == None || f.product == Some(r.product))
  }

  lemma {:induction false} MatchingIs(table: seq<Row>, bs: seq<Scoped>, f: Narrowing)
    ensures forall x :: x in Concat(Matching(table, bs, f)) <==> x in table && exists b <- bs :: Wanted(x, b, f)
  {
    if bs == [] {
    } else {
      var p := (x: Row) => MovementWhere(x, bs[0], f);
      FilterIs(table, p);
      MatchingIs(table, bs[1..], f);
      assert Matching(table, bs, f)[1..] == Matching(table, bs[1..], f);
      assert bs == [bs[0]] + bs[1..];
      assert forall x :: p(x) <==> Wanted(x, bs[0], f);
    }
  }

  /** The whole ledger the pages are cut from: the wanted movements, each once, newest first and,
      within an instant, the greatest id first. */
  lemma LedgerIs(table: seq<Row>, bs: seq<Scoped>, f: Narrowing)
    requires DistinctIds(table)
    requires forall i, j | 0 <= i < j < |bs| :: forall x <- bs[i].branches :: x !in bs[j].branches
    ensures var all := Sort(Concat(Matching(table, bs, f)));
            && (forall x :: x in all <==> x in table && exists b <- bs :: Wanted(x, b, f))
            && forall i, j | 0 <= i < j < |all| ::
                 all[i].createdAt > all[j].createdAt || (all[i].createdAt == all[j].createdAt && all[i].id > all[j].id)
  {
    var rows := Concat(Matching(table, bs, f));
    MatchingDistinct(table, bs, f);
    MatchingIs(table, bs, f);
    SortSorted(rows);
    SortKeeps(rows);
    assert forall x :: x in Sort(rows) <==> x in multiset(Sort(rows));
    assert forall x :: x in rows <==> x in multiset(rows);
  }

  lemma SliceIs<T>(s: seq<T>, lo: nat, n: nat)
    ensures var out := Slice(s, lo, lo + n);
            && |out| == (if |s| <= lo then 0 else if |s| - lo < n then |s| - lo else n)
            && (forall k | 0 <= k < |out| :: lo + k < |s| && out[k] == s[lo + k])
  {}

  /** A page holds the rows from (page - 1) * pageSize on, pageSize of them unless the ledger ends
      first. */
  lemma PageIs(matching: seq<seq<Row>>, page: nat, pageSize: nat, first: nat)
    requires page >= 1 && first == (page - 1) * pageSize
    ensures var (all, out) := (Sort(Concat(matching)), PageOf(matching, page, pageSize));
            && |out| == (if |all| <= first then 0 else if |all| - first < pageSize then |all| - first else pageSize)
            && (forall k | 0 <= k < |out| :: first + k < |all| && out[k] == all[first + k])
  {
    assert page * pageSize == first + pageSize;
    SliceIs(Sort(Concat(matching)), first, pageSize);
  }

  /** The last page is the one that reaches the ledger's end; an empty ledger has one. */
  lemma PageCount(total: nat, pageSize: nat)
    requires pageSize > 0
    ensures var pages := TotalPages(total, pageSize);
            && total <= pages * pageSize && (pages == 1 || (pages > 1 && (pages - 1) * pageSize < total))
  {
    var q := (total + pageSize - 1) / pageSize;
    assert total + pageSize - 1 == q * pageSize + (total + pageSize - 1) % pageSize;
    assert (q - 1) * pageSize == q * pageSize - pageSize;
    CeilingCovers(total, pageSize);
  }
}
