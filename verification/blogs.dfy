/**
 * The blog index: the blog pages sorted newest first by their `date`
 * metadata, with a comparator that answers 0 for equal or incomparable
 * dates, by a stable sort (Array.prototype.sort has been stable since
 * ECMAScript 2019).
 */
module BlogIndex {
  import opened Wrappers
  import opened Json
  import opened Strings
  import opened Pages

  /** `page.config.date`: the date value, or nothing when the metadata has no date. */
  function DateOf(pg: Page): Option<Value> {
    if "date" in pg.config then Some(pg.config["date"]) else None
  }

  /**
   * `x > y` for two dates: strings in code unit order, numbers by value;
   * any other pair, a missing date included, compares false both ways.
   */
  predicate Later(x: Option<Value>, y: Option<Value>) {
    if x.Some? && y.Some? && x.value.Str? && y.value.Str? then StrLess(y.value.s, x.value.s)
    else if x.Some? && y.Some? && x.value.Num? && y.value.Num? then y.value.n < x.value.n
    else false
  }

  /** No date is later than itself. */
  lemma LaterIrreflexive(x: Option<Value>)
    ensures !Later(x, x)
  {
    if x.Some? && x.value.Str? {
      StrLessIrreflexive(x.value.s);
    }
  }

  /** Two dates are never each later than the other. */
  lemma LaterAsymmetric(x: Option<Value>, y: Option<Value>)
    requires Later(x, y)
    ensures !Later(y, x)
  {
    if x.value.Str? {
      StrLessAsymmetric(y.value.s, x.value.s);
    }
  }

  /** The sort comparator: -1 when `a` is dated later than `b`, 1 when `b` is dated later, 0 otherwise. */
  function Compare(a: Page, b: Page): (c: int)
    ensures c == -1 <==> Later(DateOf(a), DateOf(b))
    ensures c == 1 <==> Later(DateOf(b), DateOf(a))
    ensures c == 0 <==> !Later(DateOf(a), DateOf(b)) && !Later(DateOf(b), DateOf(a))
  {
    if Later(DateOf(a), DateOf(b)) then
      LaterAsymmetric(DateOf(a), DateOf(b));
      -1
    else if Later(DateOf(b), DateOf(a)) then 1
    else 0
  }

  /**
   * One step of the stable insertion sort with comparator `cmp`: `x` goes
   * after every element of `s` except the trailing ones that `cmp` puts
   * after it.
   */
  function Insert<T(==)>(s: seq<T>, x: T, cmp: (T, T) -> int): (r: seq<T>)
    ensures multiset(r) == multiset(s) + multiset{x}
    decreases |s|
  {
    if s == [] then [x]
    else
      var init, last := s[..|s| - 1], s[|s| - 1];
      assert s == init + [last];
      if cmp(last, x) > 0 then Insert(init, x, cmp) + [last] else s + [x]
  }

  /** The stable sort of `s` by `cmp`; the result is a permutation of `s`. */
  function SortBy<T(==)>(s: seq<T>, cmp: (T, T) -> int): (r: seq<T>)
    ensures multiset(r) == multiset(s)
    decreases |s|
  {
    if s == [] then []
    else
      var init, last := s[..|s| - 1], s[|s| - 1];
      assert s == init + [last];
      Insert(SortBy(init, cmp), last, cmp)
  }

  /** The blog list's sort: newest first by date. */
  function SortByDate(s: seq<Page>): (r: seq<Page>)
    ensures multiset(r) == multiset(s)
  {
    SortBy(s, Compare)
  }

  /** No page is dated later than a page before it. */
  predicate NewestFirst(s: seq<Page>) {
    forall i, j :: 0 <= i < j < |s| ==> !Later(DateOf(s[j]), DateOf(s[i]))
  }

  predicate IsStrDate(d: Option<Value>) {
    d.Some? && d.value.Str?
  }

  predicate IsNumDate(d: Option<Value>) {
    d.Some? && d.value.Num?
  }

  /** Every page is dated, and all dates are strings or all are numbers: the comparator is then a total order. */
  predicate Orderable(s: seq<Page>) {
    || (forall pg :: pg in s ==> IsStrDate(DateOf(pg)))
    || (forall pg :: pg in s ==> IsNumDate(DateOf(pg)))
  }

  /** "Not later than" is transitive on dates of one kind. */
  lemma NotLaterTransitive(a: Option<Value>, b: Option<Value>, c: Option<Value>)
    requires (IsStrDate(a) && IsStrDate(b) && IsStrDate(c)) || (IsNumDate(a) && IsNumDate(b) && IsNumDate(c))
    requires !Later(a, b) && !Later(b, c)
    ensures !Later(a, c)
  {
    if IsStrDate(a) {
      var x, y, z := a.value.s, b.value.s, c.value.s;
      if x != y {
        StrLessTotal(x, y);
        if StrLess(z, x) {
          StrLessTransitive(z, x, y);
        }
      }
    }
  }

  /** Inserting into a newest-first list of comparable dates keeps it newest first. */
  lemma {:induction false} InsertSorted(s: seq<Page>, x: Page)
    requires NewestFirst(s) && Orderable(s + [x])
    ensures NewestFirst(Insert(s, x, Compare))
    decreases |s|
  {
    if s != [] {
      var init, last := s[..|s| - 1], s[|s| - 1];
      assert s == init + [last];
      if Compare(last, x) > 0 {
        assert Orderable(init + [x]) by {
          assert forall pg :: pg in init + [x] ==> pg in s + [x];
        }
        InsertSorted(init, x);
        var t := Insert(init, x, Compare);
        InsertedNotLater(init, x, last);
        AppendOlder(t, last);
      } else {
        assert last in s + [x];
        forall i | 0 <= i < |s|
          ensures !Later(DateOf(x), DateOf(s[i]))
        {
          assert s[i] in s + [x];
          if i < |s| - 1 {
            NotLaterTransitive(DateOf(x), DateOf(last), DateOf(s[i]));
          } else {
            LaterIrreflexive(DateOf(last));
          }
        }
        AppendOlder(s, x);
      }
    }
  }

  /** A page that moves behind `x` is dated no later than anything inserted before it. */
  lemma InsertedNotLater(init: seq<Page>, x: Page, last: Page)
    requires NewestFirst(init + [last]) && Compare(last, x) > 0
    ensures forall i :: 0 <= i < |Insert(init, x, Compare)| ==>
              !Later(DateOf(last), DateOf(Insert(init, x, Compare)[i]))
  {
    var s, t := init + [last], Insert(init, x, Compare);
    forall i | 0 <= i < |t|
      ensures !Later(DateOf(last), DateOf(t[i]))
    {
      assert t[i] in multiset(init) + multiset{x};
      if t[i] == x {
        LaterAsymmetric(DateOf(x), DateOf(last));
      } else {
        var k :| 0 <= k < |init| && init[k] == t[i];
        assert s[k] == t[i] && s[|init|] == last;
      }
    }
  }

  /** Appending a page dated no later than every page of a newest-first list keeps it newest first. */
  lemma AppendOlder(t: seq<Page>, y: Page)
    requires NewestFirst(t)
    requires forall i :: 0 <= i < |t| ==> !Later(DateOf(y), DateOf(t[i]))
    ensures NewestFirst(t + [y])
  {
    var r := t + [y];
    forall i, j | 0 <= i < j < |r|
      ensures !Later(DateOf(r[j]), DateOf(r[i]))
    {
      assert r[i] == t[i];
      if j < |t| {
        assert r[j] == t[j];
      }
    }
  }

  /** Sorting blog pages whose dates are all strings (or all numbers) leaves them newest first. */
  lemma {:induction false} SortByDateSorted(s: seq<Page>)
    requires Orderable(s)
    ensures NewestFirst(SortByDate(s))
    decreases |s|
  {
    if s != [] {
      var init, last := s[..|s| - 1], s[|s| - 1];
      assert s == init + [last];
      assert forall pg :: pg in init ==> pg in s;
      SortByDateSorted(init);
      var t := SortByDate(init);
      forall pg | pg in t + [last]
        ensures pg in s
      {
        if pg != last {
          assert pg in multiset(init);
        }
      }
      InsertSorted(t, last);
      assert SortByDate(s) == Insert(t, last, Compare);
    }
  }

  /** The pages of `s` dated `d`, in order. */
  function WithDate(s: seq<Page>, d: Option<Value>): (r: seq<Page>)
    ensures forall pg :: pg in r <==> pg in s && DateOf(pg) == d
    decreases |s|
  {
    if s == [] then []
    else
      var init, last := s[..|s| - 1], s[|s| - 1];
      if DateOf(last) == d then WithDate(init, d) + [last] else WithDate(init, d)
  }

  lemma {:induction false} WithDateAppend(a: seq<Page>, b: seq<Page>, d: Option<Value>)
    ensures WithDate(a + b, d) == WithDate(a, d) + WithDate(b, d)
    decreases |b|
  {
    if b == [] {
      assert a + b == a;
    } else {
      var init, last := b[..|b| - 1], b[|b| - 1];
      assert a + b == (a + init) + [last];
      assert (a + b)[..|a + b| - 1] == a + init;
      WithDateAppend(a, init, d);
    }
  }

  /** Insertion keeps the pages of each date in their order, and puts `x` after those of its date. */
  lemma {:induction false} InsertStable(s: seq<Page>, x: Page, d: Option<Value>)
    ensures WithDate(Insert(s, x, Compare), d) == WithDate(s + [x], d)
    decreases |s|
  {
    if s == [] {
    } else {
      var init, last := s[..|s| - 1], s[|s| - 1];
      assert s == init + [last];
      if Compare(last, x) > 0 {
        InsertStable(init, x, d);
        LaterIrreflexive(DateOf(x));
        WithDateAppend(Insert(init, x, Compare), [last], d);
        WithDateAppend(init, [x], d);
        WithDateAppend(s, [x], d);
        WithDateAppend(init, [last], d);
        assert [last][..0] == [] && [x][..0] == [];
      }
    }
  }

  /** The sort is stable: the pages of any one date keep their original relative order. */
  lemma {:induction false} SortByDateStable(s: seq<Page>, d: Option<Value>)
    ensures WithDate(SortByDate(s), d) == WithDate(s, d)
    decreases |s|
  {
    if s != [] {
      var init, last := s[..|s| - 1], s[|s| - 1];
      assert s == init + [last];
      SortByDateStable(init, d);
      InsertStable(SortByDate(init), last, d);
      assert SortByDate(s) == Insert(SortByDate(init), last, Compare);
      WithDateAppend(SortByDate(init), [last], d);
      WithDateAppend(init, [last], d);
    }
  }

  /** The sorted blog list holds exactly the blog pages, each as often as it was pushed. */
  lemma SortedBlogsAreBlogs(pages: seq<Page>)
    ensures multiset(SortByDate(BlogsOf(pages))) == multiset(BlogsOf(pages))
    ensures forall pg :: pg in SortByDate(BlogsOf(pages)) <==> pg in pages && IsBlog(pg)
  {
    var blogs := BlogsOf(pages);
    forall pg
      ensures pg in SortByDate(blogs) <==> pg in blogs
    {
      assert pg in SortByDate(blogs) <==> pg in multiset(SortByDate(blogs));
    }
  }

  /**
   * `array.sort(cmp)`: an insertion sort in place, each element moved left
   * past the elements `cmp` puts after it.
   */
  method Sort<T(==)>(a: array<T>, cmp: (T, T) -> int)
    modifies a
    ensures a[..] == SortBy(old(a[..]), cmp)
  {
    ghost var input := a[..];
    var i := 0;
    while i < a.Length
      invariant 0 <= i <= a.Length
      invariant a[..] == SortBy(input[..i], cmp) + input[i..]
    {
      SplitAt(a[..], SortBy(input[..i], cmp), input, i);
      SortBySnoc(input[..i], input[i], cmp);
      InsertLast(a, i, cmp);
      i := i + 1;
    }
    assert input[..i] == input;
  }

  /** One insertion step: `a[i]` moves left into the sorted prefix `a[..i]`. */
  method InsertLast<T(==)>(a: array<T>, i: nat, cmp: (T, T) -> int)
    requires i < a.Length
    modifies a
    ensures a[..] == Insert(old(a[..i]), old(a[i]), cmp) + old(a[i + 1..])
  {
    ghost var sorted := a[..i];
    ghost var rest := a[i + 1..];
    var x := a[i];
    var j := i;
    assert sorted[..j] == sorted && sorted[j..] == [];
    assert a[..] == sorted[..j] + [x] + sorted[j..] + rest;
    while j > 0 && cmp(a[j - 1], x) > 0
      invariant 0 <= j <= i == |sorted|
      invariant a[..] == sorted[..j] + [a[j]] + sorted[j..] + rest
      invariant Insert(sorted, x, cmp) == Insert(sorted[..j], x, cmp) + sorted[j..]
    {
      HoleNeighbour(sorted, j, a[j], rest);
      InsertShift(sorted, j, x, cmp);
      ShiftRight(sorted, j, a[j], rest);
      a[j] := a[j - 1];
      j := j - 1;
    }
    InsertDone(sorted, j, x, cmp);
    PlaceAt(sorted, j, a[j], x, rest);
    a[j] := x;
  }

  /** A sequence that is `x` followed by `s[i..]` splits into `x`, `s[i]` and `s[i + 1..]`. */
  lemma SplitAt<T>(b: seq<T>, x: seq<T>, s: seq<T>, i: nat)
    requires i < |s| && |x| == i && b == x + s[i..]
    ensures b[..i] == x && b[i] == s[i] && b[i + 1..] == s[i + 1..]
    ensures s[..i + 1] == s[..i] + [s[i]]
  {
  }

  lemma SortBySnoc<T>(s: seq<T>, x: T, cmp: (T, T) -> int)
    ensures SortBy(s + [x], cmp) == Insert(SortBy(s, cmp), x, cmp)
  {
    assert (s + [x])[..|s|] == s;
  }

  /** Left of the hole at `j` is the element `j - 1` of `s`. */
  lemma HoleNeighbour<T>(s: seq<T>, j: nat, v: T, rest: seq<T>)
    requires 0 < j <= |s|
    ensures (s[..j] + [v] + s[j..] + rest)[j - 1] == s[j - 1]
  {
  }

  /** Copying the element left of the hole at `j` into it moves the hole one place left. */
  lemma ShiftRight<T>(s: seq<T>, j: nat, v: T, rest: seq<T>)
    requires 0 < j <= |s|
    ensures (s[..j] + [v] + s[j..] + rest)[j := s[j - 1]] == s[..j - 1] + [s[j - 1]] + s[j - 1..] + rest
  {
    var b := s[..j] + [v] + s[j..] + rest;
    var c := s[..j - 1] + [s[j - 1]] + s[j - 1..] + rest;
    assert |b| == |c|;
    forall k | 0 <= k < |b|
      ensures b[j := s[j - 1]][k] == c[k]
    {
      if k < j - 1 {
        assert b[k] == s[k] && c[k] == s[k];
      } else if k == j - 1 {
        assert b[k] == s[k];
      } else if k == j {
      } else if k <= |s| {
        assert b[k] == s[k - 1] && c[k] == s[k - 1];
      } else {
        assert b[k] == rest[k - |s| - 1] && c[k] == rest[k - |s| - 1];
      }
    }
  }

  /** Filling the hole at `j` with `x`. */
  lemma PlaceAt<T>(s: seq<T>, j: nat, v: T, x: T, rest: seq<T>)
    requires j <= |s|
    ensures (s[..j] + [v] + s[j..] + rest)[j := x] == s[..j] + [x] + s[j..] + rest
  {
    var b := s[..j] + [v] + s[j..] + rest;
    var c := s[..j] + [x] + s[j..] + rest;
    forall k | 0 <= k < |b|
      ensures b[j := x][k] == c[k]
    {
      if k < j {
        assert b[k] == s[k] && c[k] == s[k];
      } else if k == j {
      } else if k <= |s| {
        assert b[k] == s[k - 1] && c[k] == s[k - 1];
      } else {
        assert b[k] == rest[k - |s| - 1] && c[k] == rest[k - |s| - 1];
      }
    }
  }

  /** Moving past one more element: its insertion point is further left. */
  lemma InsertShift<T>(s: seq<T>, j: nat, x: T, cmp: (T, T) -> int)
    requires 0 < j <= |s| && cmp(s[j - 1], x) > 0
    ensures Insert(s[..j], x, cmp) + s[j..] == Insert(s[..j - 1], x, cmp) + s[j - 1..]
  {
    assert s[..j][..j - 1] == s[..j - 1];
    assert s[j - 1..] == [s[j - 1]] + s[j..];
  }

  /** Stopping at the insertion point: `x` is placed right there. */
  lemma InsertDone<T>(s: seq<T>, j: nat, x: T, cmp: (T, T) -> int)
    requires j <= |s| && (j == 0 || cmp(s[j - 1], x) <= 0)
    ensures Insert(s[..j], x, cmp) == s[..j] + [x]
  {
  }
}
