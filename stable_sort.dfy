/**
  The stable sort that `Array.prototype.sort` performs (ECMA-262 requires it
  to be stable since ES2019), modelled by insertion sort with respect to a
  "sorts no later than" relation `le` derived from the comparator:
  `le(a, b)` holds exactly when `compare(a, b) <= 0`.
*/
module StableSort {
  import opened Seqs

  /** A comparator that is consistent: total and transitive. */
  ghost predicate TotalPreorder<T(!new)>(le: (T, T) -> bool) {
    (forall a, b :: le(a, b) || le(b, a))
    && (forall a, b, c :: le(a, b) && le(b, c) ==> le(a, c))
  }

  predicate Sorted<T>(s: seq<T>, le: (T, T) -> bool) {
    forall i, j :: 0 <= i < j < |s| ==> le(s[i], s[j])
  }

  /** The elements that the comparator ranks equal to k (compare(x, k) == 0). */
  function SameRank<T>(le: (T, T) -> bool, k: T): T -> bool {
    x => le(x, k) && le(k, x)
  }

  /** Inserts x before the first element it sorts no later than. */
  function Insert<T>(x: T, s: seq<T>, le: (T, T) -> bool): seq<T> {
    if s == [] then [x] else if le(x, s[0]) then [x] + s else [s[0]] + Insert(x, s[1..], le)
  }

  function Sort<T>(s: seq<T>, le: (T, T) -> bool): seq<T> {
    if s == [] then [] else Insert(s[0], Sort(s[1..], le), le)
  }

  lemma {:induction false} InsertPermutes<T>(x: T, s: seq<T>, le: (T, T) -> bool)
    ensures multiset(Insert(x, s, le)) == multiset(s) + multiset{x}
  {
    if s != [] && !le(x, s[0]) {
      InsertPermutes(x, s[1..], le);
      assert s == [s[0]] + s[1..];
    }
  }

  /** Sorting rearranges the elements and neither adds nor loses any. */
  lemma {:induction false} SortPermutes<T>(s: seq<T>, le: (T, T) -> bool)
    ensures multiset(Sort(s, le)) == multiset(s)
  {
    if s != [] {
      SortPermutes(s[1..], le);
      InsertPermutes(s[0], Sort(s[1..], le), le);
      assert s == [s[0]] + s[1..];
    }
  }

  lemma {:induction false} InsertSorted<T(!new)>(x: T, s: seq<T>, le: (T, T) -> bool)
    requires TotalPreorder(le) && Sorted(s, le)
    ensures Sorted(Insert(x, s, le), le)
  {
    if s != [] && !le(x, s[0]) {
      var t := s[1..];
      InsertSorted(x, t, le);
      InsertPermutes(x, t, le);
      var r := Insert(x, t, le);
      forall y | y in r
        ensures le(s[0], y)
      {
        assert y in multiset(r);
        if y != x {
          assert y in multiset(t);
          var j :| 0 <= j < |t| && t[j] == y;
          assert s[j + 1] == y;
        }
      }
    }
  }

  /** The result is in comparator order. */
  lemma {:induction false} SortSorted<T(!new)>(s: seq<T>, le: (T, T) -> bool)
    requires TotalPreorder(le)
    ensures Sorted(Sort(s, le), le)
  {
    if s != [] {
      SortSorted(s[1..], le);
      InsertSorted(s[0], Sort(s[1..], le), le);
    }
  }

  /** Inserting x, which sorts no later than any element kept by p when p keeps it, adds x to the front of what p keeps. */
  lemma {:induction false} InsertFilter<T>(x: T, s: seq<T>, le: (T, T) -> bool, p: T -> bool)
    requires p(x) ==> forall y :: p(y) ==> le(x, y)
    ensures Filter(Insert(x, s, le), p) == (if p(x) then [x] else []) + Filter(s, p)
  {
    if s != [] && !le(x, s[0]) {
      InsertFilter(x, s[1..], le, p);
      InsertFilterPast(x, s, le, p);
    } else {
      InsertFilterHere(x, s, le, p);
    }
  }

  lemma InsertFilterHere<T>(x: T, s: seq<T>, le: (T, T) -> bool, p: T -> bool)
    requires s == [] || le(x, s[0])
    ensures Filter(Insert(x, s, le), p) == (if p(x) then [x] else []) + Filter(s, p)
  {
    assert Insert(x, s, le) == [x] + s;
    FilterConcat([x], s, p);
  }

  lemma InsertFilterPast<T>(x: T, s: seq<T>, le: (T, T) -> bool, p: T -> bool)
    requires s != [] && !le(x, s[0]) && (p(x) ==> !p(s[0]))
    requires Filter(Insert(x, s[1..], le), p) == (if p(x) then [x] else []) + Filter(s[1..], p)
    ensures Filter(Insert(x, s, le), p) == (if p(x) then [x] else []) + Filter(s, p)
  {
    assert Insert(x, s, le) == [s[0]] + Insert(x, s[1..], le);
    assert s == [s[0]] + s[1..];
    FilterPastHead(s[0], Insert(x, s[1..], le), s[1..], if p(x) then [x] else [], p);
  }

  /** If filtering r gives px before what filtering t gives, a head that p drops unless px is empty keeps it so. */
  lemma FilterPastHead<T>(a: T, r: seq<T>, t: seq<T>, px: seq<T>, p: T -> bool)
    requires Filter(r, p) == px + Filter(t, p) && (px != [] ==> !p(a))
    ensures Filter([a] + r, p) == px + Filter([a] + t, p)
  {
    FilterCons(a, r, p);
    FilterCons(a, t, p);
    if p(a) {
      assert px == [];
      assert px + Filter([a] + t, p) == Filter([a] + t, p);
      assert Filter(r, p) == Filter(t, p);
    }
  }

  lemma FilterCons<T>(a: T, r: seq<T>, p: T -> bool)
    ensures Filter([a] + r, p) == if p(a) then [a] + Filter(r, p) else Filter(r, p)
  {
    assert ([a] + r)[1..] == r;
  }

  lemma InsertStable<T(!new)>(x: T, s: seq<T>, le: (T, T) -> bool, k: T)
    requires TotalPreorder(le)
    ensures Filter(Insert(x, s, le), SameRank(le, k))
         == (if SameRank(le, k)(x) then [x] else []) + Filter(s, SameRank(le, k))
  {
    var p := SameRank(le, k);
    if p(x) {
      forall y | p(y)
        ensures le(x, y)
      {
        assert le(x, k) && le(k, y);
      }
    }
    InsertFilter(x, s, le, p);
  }

  /** Elements the comparator ranks equal keep their input order. */
  lemma {:induction false} SortStable<T(!new)>(s: seq<T>, le: (T, T) -> bool, k: T)
    requires TotalPreorder(le)
    ensures Filter(Sort(s, le), SameRank(le, k)) == Filter(s, SameRank(le, k))
  {
    if s != [] {
      SortStable(s[1..], le, k);
      InsertStable(s[0], Sort(s[1..], le), le, k);
    }
  }

  lemma {:induction false} InsertAgree<T>(x: T, s: seq<T>, le: (T, T) -> bool, le2: (T, T) -> bool, u: seq<T>)
    requires x in u && forall y :: y in s ==> y in u
    requires forall a, b :: a in u && b in u ==> le(a, b) == le2(a, b)
    ensures Insert(x, s, le) == Insert(x, s, le2)
  {
    if s != [] {
      assert s[0] in s;
      if !le(x, s[0]) {
        forall y | y in s[1..]
          ensures y in u
        {
          assert y in s;
        }
        InsertAgree(x, s[1..], le, le2, u);
      }
    }
  }

  /**
    The result depends on the comparator only through its answers for the
    elements being sorted: two comparators that agree there sort alike.
  */
  lemma {:induction false} SortAgree<T>(s: seq<T>, le: (T, T) -> bool, le2: (T, T) -> bool)
    requires forall a, b :: a in s && b in s ==> le(a, b) == le2(a, b)
    ensures Sort(s, le) == Sort(s, le2)
  {
    if s != [] {
      var t := s[1..];
      forall y | y in t
        ensures y in s
      {
      }
      SortAgree(t, le, le2);
      SortPermutes(t, le);
      forall y | y in Sort(t, le)
        ensures y in s
      {
        assert y in multiset(Sort(t, le));
        assert y in t;
      }
      InsertAgree(s[0], Sort(t, le), le, le2, s);
    }
  }
}
