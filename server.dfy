/**
  `transformGamesForUi` of server.js: flattens catalog records into the
  rows the endpoint returns as JSON, dropping records without a release
  date, and sorts the rows by their ISO date string.
*/
module Server {
  import opened Wrappers
  import opened Text
  import opened Seqs
  import opened StableSort
  import opened Catalog
  import opened JsDate

  /** A row of the endpoint's JSON array; an absent `name` or `slug` stays absent. */
  datatype Row = Row(
    date: string,
    humanDate: string,
    name: Option<string>,
    slug: Option<string>,
    platforms: string,
    coverUrl: Option<string>)

  /** `toISOString` throws a RangeError for an Invalid Date. */
  datatype Error = RangeError

  const Placeholder: string := "Unknown"

  /**
    The row built for a record with a release date; `humanDate` stands for
    `toLocaleDateString('en-US', ...)` applied to the release instant.
  */
  function ToRow(g: Game, humanDate: int -> string): Row
    requires HasReleaseDate(g)
  {
    var ms := ReleaseMs(g);
    Row(IsoDayKey(ms), humanDate(ms), g.name, g.slug, PlatformSummary(g, Placeholder), CoverUrl(g))
  }

  /** The rows as pushed by the loop, before sorting. */
  function PushedRows(games: seq<Game>, humanDate: int -> string): seq<Row> {
    if games == [] then []
    else
      var last := games[|games| - 1];
      PushedRows(games[..|games| - 1], humanDate) + (if HasReleaseDate(last) then [ToRow(last, humanDate)] else [])
  }

  /** The record's instant is no valid time value, so `toISOString` throws. */
  predicate Throws(g: Game) {
    HasReleaseDate(g) && !IsValidTime(ReleaseMs(g))
  }

  /** The comparator `a.date < b.date ? -1 : a.date > b.date ? 1 : 0` is at most 0. */
  predicate DateLe(a: Row, b: Row) {
    !Less(b.date, a.date)
  }

  method TransformGamesForUi(games: seq<Game>, humanDate: int -> string) returns (result: Result<seq<Row>, Error>)
    ensures result.Failure? <==> exists i :: 0 <= i < |games| && Throws(games[i])
    ensures result.Success? ==> result.value == Sort(PushedRows(games, humanDate), DateLe)
  {
    var rows: seq<Row> := [];
    var i := 0;
    while i < |games|
      invariant 0 <= i <= |games|
      invariant rows == PushedRows(games[..i], humanDate)
      invariant forall j :: 0 <= j < i ==> !Throws(games[j])
    {
      var game := games[i];
      assert games[..i + 1][..i] == games[..i];
      if HasReleaseDate(game) {
        var ms := game.firstReleaseDate.value * 1000;
        var human := humanDate(ms);
        if !IsValidTime(ms) {
          return Failure(RangeError);
        }
        var isoDate := IsoDayKey(ms);
        var platforms := PlatformSummary(game, Placeholder);
        var coverUrl := CoverUrl(game);
        rows := rows + [Row(isoDate, human, game.name, game.slug, platforms, coverUrl)];
      }
      i := i + 1;
    }
    assert games[..|games|] == games;
    rows := Sort(rows, DateLe);
    return Success(rows);
  }

  /**
    The pushed rows are exactly the records whose release date is truthy,
    in input order, each turned into its row.
  */
  lemma {:induction false} PushedRowsAreKeptRecords(games: seq<Game>, humanDate: int -> string)
    ensures var kept := Filter(games, HasReleaseDate);
      |PushedRows(games, humanDate)| == |kept|
      && forall j :: 0 <= j < |kept| ==> PushedRows(games, humanDate)[j] == ToRow(kept[j], humanDate)
  {
    if games != [] {
      var n := |games|;
      var init, last := games[..n - 1], games[n - 1];
      PushedRowsAreKeptRecords(init, humanDate);
      assert games == init + [last];
      FilterConcat(init, [last], HasReleaseDate);
      var kept0, rows0 := Filter(init, HasReleaseDate), PushedRows(init, humanDate);
      var tail := if HasReleaseDate(last) then [ToRow(last, humanDate)] else [];
      assert PushedRows(games, humanDate) == rows0 + tail;
      assert Filter(games, HasReleaseDate) == kept0 + Filter([last], HasReleaseDate);
    }
  }

  /** A record with a falsy release date gives no row, whatever its other fields hold. */
  lemma UndatedRecordIgnored(a: seq<Game>, g: Game, b: seq<Game>, humanDate: int -> string)
    requires !HasReleaseDate(g)
    ensures PushedRows(a + [g] + b, humanDate) == PushedRows(a + b, humanDate)
  {
    PushedRowsAreKeptRecords(a + [g] + b, humanDate);
    PushedRowsAreKeptRecords(a + b, humanDate);
    FilterSkips(a, g, b, HasReleaseDate);
  }

  /** What each row holds, read back from the record it was made from. */
  lemma RowFields(g: Game, humanDate: int -> string)
    requires HasReleaseDate(g)
    ensures var r := ToRow(g, humanDate);
      r.name == g.name && r.slug == g.slug
      && r.humanDate == humanDate(ReleaseMs(g))
      && r.platforms == PlatformSummary(g, "Unknown")
      && (r.coverUrl.Some? <==> HasCoverImage(g))
      && (r.coverUrl.Some? ==> ImageIdOf(r.coverUrl.value) == g.cover.value.imageId)
  {
    CoverUrlRoundTrip(g);
  }

  /** A row's date reads back as the UTC year, month and day of the release instant. */
  lemma RowDateReadsBack(g: Game, humanDate: int -> string)
    requires HasReleaseDate(g) && FourDigitYear(DateOf(ReleaseMs(g)))
    ensures var k := ToRow(g, humanDate).date; var d := DateOf(ReleaseMs(g));
      |k| == 10 && ParseDecimal(k[..4]) == d.year
      && ParseDecimal(k[5..7]) == d.month && ParseDecimal(k[8..]) == d.day
  {
    IsoDayKeyParses(ReleaseMs(g));
  }

  lemma DateLeIsTotalPreorder()
    ensures TotalPreorder(DateLe)
  {
    forall a: Row, b: Row
      ensures DateLe(a, b) || DateLe(b, a)
    {
      if Less(b.date, a.date) {
        LessAsymmetric(b.date, a.date);
      }
    }
    forall a: Row, b: Row, c: Row | DateLe(a, b) && DateLe(b, c)
      ensures DateLe(a, c)
    {
      LessTotal(a.date, b.date);
      if Less(c.date, a.date) && Less(a.date, b.date) {
        LessTransitive(c.date, a.date, b.date);
      }
    }
  }

  /** The rows carrying a given date. */
  function WithDate(d: string): Row -> bool {
    (r: Row) => r.date == d
  }

  lemma SameRankIsSameDate(d: string)
    ensures var k := Row(d, "", None, None, "", None);
      forall r :: SameRank(DateLe, k)(r) == WithDate(d)(r)
  {
    var k := Row(d, "", None, None, "", None);
    forall r: Row
      ensures SameRank(DateLe, k)(r) == WithDate(d)(r)
    {
      assert SameRank(DateLe, k)(r) == (DateLe(r, k) && DateLe(k, r));
      LessIrreflexive(d);
      LessTotal(r.date, d);
    }
  }

  /**
    The endpoint's rows: one per record with a truthy release date, sorted
    ascending by date string, a permutation of the pushed rows, and rows
    with equal dates in input order.
  */
  lemma SortedOutput(games: seq<Game>, humanDate: int -> string, d: string)
    ensures var pushed := PushedRows(games, humanDate); var out := Sort(pushed, DateLe);
      |out| == |Filter(games, HasReleaseDate)|
      && (forall i, j :: 0 <= i < j < |out| ==> !Less(out[j].date, out[i].date))
      && multiset(out) == multiset(pushed)
      && Filter(out, WithDate(d)) == Filter(pushed, WithDate(d))
  {
    var pushed := PushedRows(games, humanDate);
    var out := Sort(pushed, DateLe);
    PushedRowsAreKeptRecords(games, humanDate);
    DateLeIsTotalPreorder();
    SortSorted(pushed, DateLe);
    SortPermutes(pushed, DateLe);
    assert |out| == |pushed| by {
      assert |multiset(out)| == |multiset(pushed)|;
    }
    var k := Row(d, "", None, None, "", None);
    SortStable(pushed, DateLe, k);
    SameRankIsSameDate(d);
    FilterAgree(out, SameRank(DateLe, k), WithDate(d));
    FilterAgree(pushed, SameRank(DateLe, k), WithDate(d));
  }
}
