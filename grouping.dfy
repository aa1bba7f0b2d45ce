/**
  Day grouping, shared by the console listing of next-month.js
  (`formatGames`) and the table of public/app.js (`renderTable`): walking
  the rows in order, a header line is written before a row whenever the
  row's day key differs from the key of the row before it, and every row
  then gets its own body line.
*/
module Grouping {
  import opened Seqs

  /** One output line: a date header or the line of one row. */
  datatype Line<B> = Header(text: string) | Body(item: B)

  /** Row i opens a group: it is the first row, or its key differs from the previous row's. */
  predicate StartsGroup<T>(rows: seq<T>, key: T -> string, i: int)
    requires 0 <= i < |rows|
  {
    i == 0 || key(rows[i - 1]) != key(rows[i])
  }

  /** The lines written for row i. */
  function Chunk<T, B>(rows: seq<T>, key: T -> string, title: T -> string, body: T -> B, i: int): seq<Line<B>>
    requires 0 <= i < |rows|
  {
    (if StartsGroup(rows, key, i) then [Header(title(rows[i]))] else []) + [Body(body(rows[i]))]
  }

  /** The lines written for the first n rows. */
  function GroupedPrefix<T, B>(rows: seq<T>, key: T -> string, title: T -> string, body: T -> B, n: int): seq<Line<B>>
    requires 0 <= n <= |rows|
  {
    if n == 0 then [] else GroupedPrefix(rows, key, title, body, n - 1) + Chunk(rows, key, title, body, n - 1)
  }

  /** All lines written for rows. */
  function Grouped<T, B>(rows: seq<T>, key: T -> string, title: T -> string, body: T -> B): seq<Line<B>> {
    GroupedPrefix(rows, key, title, body, |rows|)
  }

  /** The items of the body lines, in order. */
  function Items<B>(lines: seq<Line<B>>): seq<B> {
    if lines == [] then []
    else (if lines[0].Body? then [lines[0].item] else []) + Items(lines[1..])
  }

  /** The number of header lines. */
  function HeaderCount<B>(lines: seq<Line<B>>): nat {
    if lines == [] then 0 else (if lines[0].Header? then 1 else 0) + HeaderCount(lines[1..])
  }

  /** The number of rows that open a group among the first n. */
  function GroupCount<T>(rows: seq<T>, key: T -> string, n: int): nat
    requires 0 <= n <= |rows|
  {
    if n == 0 then 0 else GroupCount(rows, key, n - 1) + (if StartsGroup(rows, key, n - 1) then 1 else 0)
  }

  lemma {:induction false} ItemsConcat<B>(a: seq<Line<B>>, b: seq<Line<B>>)
    ensures Items(a + b) == Items(a) + Items(b)
    ensures HeaderCount(a + b) == HeaderCount(a) + HeaderCount(b)
  {
    if a == [] {
      assert a + b == b;
    } else {
      assert (a + b)[0] == a[0] && (a + b)[1..] == a[1..] + b;
      ItemsConcat(a[1..], b);
    }
  }

  lemma {:induction false} PrefixItems<T, B>(rows: seq<T>, key: T -> string, title: T -> string, body: T -> B, n: int)
    requires 0 <= n <= |rows|
    ensures Items(GroupedPrefix(rows, key, title, body, n)) == Map(rows[..n], body)
    ensures HeaderCount(GroupedPrefix(rows, key, title, body, n)) == GroupCount(rows, key, n)
  {
    if n > 0 {
      PrefixItems(rows, key, title, body, n - 1);
      var c := Chunk(rows, key, title, body, n - 1);
      ItemsConcat(GroupedPrefix(rows, key, title, body, n - 1), c);
      var h: seq<Line<B>> := if StartsGroup(rows, key, n - 1) then [Header(title(rows[n - 1]))] else [];
      ItemsConcat(h, [Body(body(rows[n - 1]))]);
      assert rows[..n] == rows[..n - 1] + [rows[n - 1]];
      MapConcat(rows[..n - 1], [rows[n - 1]], body);
    }
  }

  /**
    The body lines are the rows, each exactly once and in order; there is
    one header per row that opens a group, and nothing else.
  */
  lemma GroupedItems<T, B>(rows: seq<T>, key: T -> string, title: T -> string, body: T -> B)
    ensures Items(Grouped(rows, key, title, body)) == Map(rows, body)
    ensures HeaderCount(Grouped(rows, key, title, body)) == GroupCount(rows, key, |rows|)
    ensures |Grouped(rows, key, title, body)| == |rows| + GroupCount(rows, key, |rows|)
  {
    PrefixItems(rows, key, title, body, |rows|);
    assert rows[..|rows|] == rows;
    LinesAreItemsOrHeaders(Grouped(rows, key, title, body));
  }

  lemma {:induction false} LinesAreItemsOrHeaders<B>(lines: seq<Line<B>>)
    ensures |lines| == |Items(lines)| + HeaderCount(lines)
  {
    if lines != [] {
      LinesAreItemsOrHeaders(lines[1..]);
    }
  }

  lemma {:induction false} PrefixExtends<T, B>(rows: seq<T>, key: T -> string, title: T -> string, body: T -> B, n: int, m: int)
    requires 0 <= n <= m <= |rows|
    ensures GroupedPrefix(rows, key, title, body, n) <= GroupedPrefix(rows, key, title, body, m)
    decreases m - n
  {
    if n < m {
      PrefixExtends(rows, key, title, body, n, m - 1);
    }
  }

  /**
    Row k's body line is preceded by a header exactly when row k opens a
    group, and that header carries row k's title; otherwise the line before
    it is the body line of row k - 1.
  */
  lemma HeaderPrecedesExactly<T, B>(rows: seq<T>, key: T -> string, title: T -> string, body: T -> B, k: int)
    requires 0 <= k < |rows|
    ensures var out := Grouped(rows, key, title, body);
      var p := |GroupedPrefix(rows, key, title, body, k)| + (if StartsGroup(rows, key, k) then 1 else 0);
      p < |out| && out[p] == Body(body(rows[k]))
      && (StartsGroup(rows, key, k) <==> (p > 0 && out[p - 1].Header?))
      && (StartsGroup(rows, key, k) ==> out[p - 1] == Header(title(rows[k])))
      && (!StartsGroup(rows, key, k) ==> out[p - 1] == Body(body(rows[k - 1])))
  {
    var out := Grouped(rows, key, title, body);
    var pre := GroupedPrefix(rows, key, title, body, k);
    PrefixExtends(rows, key, title, body, k + 1, |rows|);
    var upto := GroupedPrefix(rows, key, title, body, k + 1);
    assert upto == pre + Chunk(rows, key, title, body, k);
    if !StartsGroup(rows, key, k) {
      assert k > 0;
      var before := GroupedPrefix(rows, key, title, body, k - 1);
      assert pre == before + Chunk(rows, key, title, body, k - 1);
      assert pre[|pre| - 1] == Body(body(rows[k - 1]));
    }
  }

  /** Rows with equal keys stand together: no other key comes between them. */
  predicate KeysContiguous<T>(rows: seq<T>, key: T -> string) {
    forall i, j, k :: 0 <= i <= j <= k < |rows| && key(rows[i]) == key(rows[k]) ==> key(rows[j]) == key(rows[i])
  }

  /** Every row belongs to the group opened by an earlier (or its own) row with the same key. */
  lemma {:induction false} GroupHeadExists<T>(rows: seq<T>, key: T -> string, k: int)
    requires 0 <= k < |rows|
    ensures exists h :: 0 <= h <= k && StartsGroup(rows, key, h) && key(rows[h]) == key(rows[k])
  {
    if !StartsGroup(rows, key, k) {
      GroupHeadExists(rows, key, k - 1);
    }
  }

  /**
    When equal keys stand together (as they do in sorted rows) every key
    heads exactly one group: no two rows that open groups share a key.
  */
  lemma OneGroupPerKey<T>(rows: seq<T>, key: T -> string, i: int, j: int)
    requires KeysContiguous(rows, key)
    requires 0 <= i < j < |rows| && StartsGroup(rows, key, i) && StartsGroup(rows, key, j)
    ensures key(rows[i]) != key(rows[j])
  {
    var previous := rows[j - 1];
    assert key(previous) != key(rows[j]);
  }
}
