/** The library's stable `sort_by`, as a function, with what its callers rely
    on: order, permutation, stability, and how it commutes with appending and
    with `retain`. */
module StableSort {

  ghost predicate Preorder<T(!new)>(le: (T, T) -> bool) {
    && (forall x, y :: le(x, y) || le(y, x))
    && (forall x, y, z :: le(x, y) && le(y, z) ==> le(x, z))
  }

  ghost predicate Sorted<T>(s: seq<T>, le: (T, T) -> bool) {
    forall i, j :: 0 <= i < j < |s| ==> le(s[i], s[j])
  }

  /** Put x in front of the first element that is not smaller. */
  function Insert<T>(x: T, s: seq<T>, le: (T, T) -> bool): seq<T> {
    if s == [] then [x]
    else if le(x, s[0]) then [x] + s
    else [s[0]] + Insert(x, s[1..], le)
  }

  function Sort<T>(s: seq<T>, le: (T, T) -> bool): seq<T> {
    if s == [] then [] else Insert(s[0], Sort(s[1..], le), le)
  }

  /** Put x behind every element that is not larger: where a stable sort moves
      a freshly pushed element. */
  function InsertLast<T>(x: T, s: seq<T>, le: (T, T) -> bool): seq<T> {
    if s == [] then [x]
    else if le(s[0], x) then [s[0]] + InsertLast(x, s[1..], le)
    else [x] + s
  }

  function Filter<T>(s: seq<T>, keep: T -> bool): seq<T> {
    if s == [] then []
    else if keep(s[0]) then [s[0]] + Filter(s[1..], keep)
    else Filter(s[1..], keep)
  }

  lemma {:induction false} InsertPermutes<T(!new)>(x: T, s: seq<T>, le: (T, T) -> bool)
    ensures multiset(Insert(x, s, le)) == multiset([x] + s)
    ensures forall y :: y in Insert(x, s, le) <==> y == x || y in s
  {
    if s != [] {
      assert s == [s[0]] + s[1..];
      if !le(x, s[0]) {
        InsertPermutes(x, s[1..], le);
      }
    }
  }

  lemma {:induction false} SortPermutes<T(!new)>(s: seq<T>, le: (T, T) -> bool)
    ensures multiset(Sort(s, le)) == multiset(s)
    ensures forall x :: x in Sort(s, le) <==> x in s
  {
    if s != [] {
      SortPermutes(s[1..], le);
      InsertPermutes(s[0], Sort(s[1..], le), le);
      assert s == [s[0]] + s[1..];
    }
  }

  lemma {:induction false} InsertSorts<T(!new)>(x: T, s: seq<T>, le: (T, T) -> bool)
    requires Sorted(s, le) && Preorder(le)
    ensures Sorted(Insert(x, s, le), le)
  {
    if s != [] && !le(x, s[0]) {
      InsertSorts(x, s[1..], le);
      InsertPermutes(x, s[1..], le);
      var r := Insert(x, s[1..], le);
      forall j | 0 <= j < |r| ensures le(s[0], r[j]) {
        assert r[j] in r;
        if r[j] in s[1..] {
          HeadBelow(s, r[j], le);
        }
      }
    }
  }

  lemma HeadBelow<T>(s: seq<T>, y: T, le: (T, T) -> bool)
    requires Sorted(s, le) && s != [] && y in s[1..]
    ensures le(s[0], y)
  {
    var k :| 0 <= k < |s[1..]| && s[1..][k] == y;
    assert s[k + 1] == y;
  }

  lemma {:induction false} SortSorts<T(!new)>(s: seq<T>, le: (T, T) -> bool)
    requires Preorder(le)
    ensures Sorted(Sort(s, le), le)
  {
    if s != [] {
      SortSorts(s[1..], le);
      InsertSorts(s[0], Sort(s[1..], le), le);
    }
  }

  lemma {:induction false} SortOfSorted<T>(s: seq<T>, le: (T, T) -> bool)
    requires Sorted(s, le)
    ensures Sort(s, le) == s
  {
    if s != [] {
      SortOfSorted(s[1..], le);
      if |s| > 1 {
        assert le(s[0], s[1]);
      }
      assert s == [s[0]] + s[1..];
    }
  }

  /** Both insertions commute: the new element goes behind its equals, the old
      one in front of them. */
  lemma {:induction false} InsertionsCommute<T(!new)>(a: T, x: T, s: seq<T>, le: (T, T) -> bool)
    requires Preorder(le)
    ensures Insert(a, InsertLast(x, s, le), le) == InsertLast(x, Insert(a, s, le), le)
  {
    if s != [] {
      var t := s[1..];
      assert s == [s[0]] + t;
      assert ([a] + s)[1..] == s;
      assert ([x] + s)[1..] == s;
      assert ([s[0]] + InsertLast(x, t, le))[1..] == InsertLast(x, t, le);
      assert ([s[0]] + Insert(a, t, le))[1..] == Insert(a, t, le);
      if le(s[0], x) && !le(a, s[0]) {
        InsertionsCommute(a, x, t, le);
      }
    }
  }

  /** Sorting after a push only moves the pushed element. */
  lemma {:induction false} SortAppend<T(!new)>(s: seq<T>, x: T, le: (T, T) -> bool)
    requires Preorder(le)
    ensures Sort(s + [x], le) == InsertLast(x, Sort(s, le), le)
  {
    if s == [] {
      assert s + [x] == [x];
      assert [x][1..] == [];
    } else {
      assert (s + [x])[1..] == s[1..] + [x];
      SortAppend(s[1..], x, le);
      InsertionsCommute(s[0], x, Sort(s[1..], le), le);
    }
  }

  /** Push-then-sort on an already sorted list is the sort of the arrivals. */
  lemma SortIncremental<T(!new)>(s: seq<T>, x: T, le: (T, T) -> bool)
    requires Preorder(le)
    ensures Sort(Sort(s, le) + [x], le) == Sort(s + [x], le)
  {
    SortSorts(s, le);
    SortAppend(Sort(s, le), x, le);
    SortOfSorted(Sort(s, le), le);
    SortAppend(s, x, le);
  }

  lemma {:induction false} FilterMembers<T(!new)>(s: seq<T>, keep: T -> bool)
    ensures forall x :: x in Filter(s, keep) <==> x in s && keep(x)
  {
    if s != [] {
      FilterMembers(s[1..], keep);
      assert s == [s[0]] + s[1..];
    }
  }

  lemma {:induction false} FilterConcat<T>(a: seq<T>, b: seq<T>, keep: T -> bool)
    ensures Filter(a + b, keep) == Filter(a, keep) + Filter(b, keep)
  {
    if a == [] {
      assert a + b == b;
    } else {
      FilterConcat(a[1..], b, keep);
      assert (a + b)[1..] == a[1..] + b;
    }
  }

  lemma InsertFront<T>(x: T, s: seq<T>, le: (T, T) -> bool)
    requires s != [] ==> le(x, s[0])
    ensures Insert(x, s, le) == [x] + s
  {
    if s == [] {
      assert [x] + s == [x];
    }
  }

  lemma {:induction false} FilterInsert<T(!new)>(x: T, s: seq<T>, keep: T -> bool, le: (T, T) -> bool)
    requires Sorted(s, le) && Preorder(le)
    ensures Filter(Insert(x, s, le), keep)
         == if keep(x) then Insert(x, Filter(s, keep), le) else Filter(s, keep)
  {
    if s != [] {
      var t := s[1..];
      if le(x, s[0]) {
        assert ([x] + s)[1..] == s;
        var f := Filter(s, keep);
        FilterMembers(s, keep);
        if f != [] {
          assert f[0] in f;
          assert s == [s[0]] + t;
          if f[0] in t {
            HeadBelow(s, f[0], le);
          }
        }
        InsertFront(x, f, le);
      } else {
        FilterInsert(x, t, keep, le);
        assert ([s[0]] + Insert(x, t, le))[1..] == Insert(x, t, le);
        assert ([s[0]] + Filter(t, keep))[1..] == Filter(t, keep);
      }
    }
  }

  /** `retain` and the sort commute. */
  lemma {:induction false} SortFilter<T(!new)>(s: seq<T>, keep: T -> bool, le: (T, T) -> bool)
    requires Preorder(le)
    ensures Filter(Sort(s, le), keep) == Sort(Filter(s, keep), le)
  {
    if s != [] {
      var t := s[1..];
      SortFilter(t, keep, le);
      SortSorts(t, le);
      FilterInsert(s[0], Sort(t, le), keep, le);
      assert ([s[0]] + Filter(t, keep))[1..] == Filter(t, keep);
    }
  }

  /** Stability: elements of one class, all equal under `le`, keep the order
      they had. */
  lemma SortIsStable<T(!new)>(s: seq<T>, inClass: T -> bool, le: (T, T) -> bool)
    requires Preorder(le)
    requires forall x, y :: inClass(x) && inClass(y) ==> le(x, y)
    ensures Filter(Sort(s, le), inClass) == Filter(s, inClass)
  {
    SortFilter(s, inClass, le);
    FilterMembers(s, inClass);
    var f := Filter(s, inClass);
    forall i, j | 0 <= i < j < |f| ensures le(f[i], f[j]) {
      assert f[i] in f && f[j] in f;
    }
    SortOfSorted(f, le);
  }
}
