/**
  The browser page of public/app.js: `fetchReleases` loads the endpoint's
  rows and reports on them, `renderTable` lays the rows out as a table body
  of day header rows and game rows, and the platform filter of
  `setupFilter` re-renders the stored rows that match the typed query.
*/
module App {
  import opened Wrappers
  import opened Text
  import opened Seqs
  import opened Grouping
  import opened Server
  import opened StableSort
  import Catalog

  /** The cover cell: an image of the cover, or the text "—". */
  datatype CoverCell = Image(src: string, alt: string) | Dash

  /** The four cells of a game row: date (left blank), cover, name, platforms. */
  datatype Cells = Cells(date: string, cover: CoverCell, name: string, platforms: string)

  /** The table's `display` style: as the stylesheet leaves it, `none` or `table`. */
  datatype Display = Initial | Hidden | Shown

  /** What `await res.json()` gave: a thrown error, a non-array value, or an array of rows. */
  datatype Response = Failed | NotAnArray | Rows(rows: seq<Row>)

  /** `textContent` set to an absent value is the empty string. */
  function TextContent(s: Option<string>): string {
    if s.Some? then s.value else ""
  }

  function CoverOf(game: Row): CoverCell {
    if Catalog.IsTruthy(game.coverUrl) then Image(game.coverUrl.value, Catalog.Interpolated(game.name) + " cover") else Dash
  }

  function GameCells(game: Row): Cells {
    Cells("", CoverOf(game), TextContent(game.name), game.platforms)
  }

  /** The key that `renderTable` compares with `currentDate`. */
  function RowDate(game: Row): string {
    game.date
  }

  function RowHumanDate(game: Row): string {
    game.humanDate
  }

  /** The table body that `renderTable` builds for a sequence of rows. */
  function Table(games: seq<Row>): seq<Line<Cells>> {
    Grouped(games, RowDate, RowHumanDate, GameCells)
  }

  /** The filter query: the input's value trimmed and lower-cased. */
  function Query(input: string): string {
    Lower(Trim(input))
  }

  /** A row matches a non-empty query when its lower-cased platforms contain it. */
  function Matches(q: string): Row -> bool {
    (g: Row) => Includes(Lower(g.platforms), q)
  }

  /** The rows shown for the typed input: all of them for an empty query. */
  function FilterGames(all: seq<Row>, input: string): seq<Row> {
    var q := Query(input);
    if q == "" then all else Filter(all, Matches(q))
  }

  /** The label of the status line: the 30-day label exactly for mode '30days', the calendar-month label otherwise. */
  function ModeLabel(mode: string): (r: string)
    ensures r == "Next 30 days" <==> mode == "30days"
    ensures r != "Next 30 days" ==> r == "Next calendar month"
  {
    if mode == "30days" then "Next 30 days" else "Next calendar month"
  }

  function StatusLine(count: nat, mode: string): string {
    "Showing " + DecimalString(count) + " games. (" + ModeLabel(mode) + ")"
  }

  const NoGamesStatus: string := "No games found."
  const FailedStatus: string := "Failed to load data."

  /** The page's state: the status text, the table, and `window.__allGames`. */
  class Page {
    var status: string
    var display: Display
    var allGames: seq<Row>
    var tbody: seq<Line<Cells>>

    /** The page before any load; `window.__allGames || []` reads an unset global as []. */
    constructor()
      ensures status == "" && display == Initial && allGames == [] && tbody == []
    {
      status := "";
      display := Initial;
      allGames := [];
      tbody := [];
    }

    /** `renderTable`: empties the body, then appends a header row whenever the date changes and a row per game. */
    method RenderTable(games: seq<Row>)
      modifies this
      ensures tbody == Table(games)
      ensures status == old(status) && display == old(display) && allGames == old(allGames)
    {
      tbody := [];
      var currentDate: Option<string> := None;
      var i := 0;
      while i < |games|
        invariant 0 <= i <= |games|
        invariant tbody == GroupedPrefix(games, RowDate, RowHumanDate, GameCells, i)
        invariant i == 0 ==> currentDate == None
        invariant i > 0 ==> currentDate == Some(games[i - 1].date)
        invariant status == old(status) && display == old(display) && allGames == old(allGames)
      {
        var game := games[i];
        if Some(game.date) != currentDate {
          currentDate := Some(game.date);
          tbody := tbody + [Header(game.humanDate)];
        }
        tbody := tbody + [Body(GameCells(game))];
        i := i + 1;
      }
    }

    /**
      `fetchReleases(mode)` once the response has arrived: an error or an
      empty or non-array response hides the table and keeps the stored rows;
      rows are stored, rendered and counted in the status line.
    */
    method FetchReleases(mode: string, response: Response)
      modifies this
      ensures response.Failed? ==>
        status == FailedStatus && display == Hidden && allGames == old(allGames) && tbody == old(tbody)
      ensures response.NotAnArray? || response == Rows([]) ==>
        status == NoGamesStatus && display == Hidden && allGames == old(allGames) && tbody == old(tbody)
      ensures response.Rows? && response.rows != [] ==>
        status == StatusLine(|response.rows|, mode) && display == Shown
        && allGames == response.rows && tbody == Table(response.rows)
    {
      status := "Loading…";
      match response {
        case Failed =>
          status := FailedStatus;
          display := Hidden;
        case NotAnArray =>
          status := NoGamesStatus;
          display := Hidden;
        case Rows(data) =>
          if |data| == 0 {
            status := NoGamesStatus;
            display := Hidden;
            return;
          }
          allGames := data;
          RenderTable(data);
          status := StatusLine(|data|, mode);
          display := Shown;
      }
    }

    /** The filter's `input` listener: renders the stored rows that match the input. */
    method OnFilterInput(input: string)
      modifies this
      ensures tbody == Table(FilterGames(old(allGames), input))
      ensures status == old(status) && display == old(display) && allGames == old(allGames)
    {
      var q := Lower(Trim(input));
      var all := allGames;
      if q == "" {
        RenderTable(all);
        return;
      }
      var filtered := Filter(all, Matches(q));
      RenderTable(filtered);
    }
  }

  /** A query of nothing but white space shows every stored row, in order. */
  lemma BlankQueryShowsAll(all: seq<Row>, input: string)
    requires forall i :: 0 <= i < |input| ==> IsTrimmable(input[i])
    ensures FilterGames(all, input) == all
  {
    var r := Trim(input);
    var i :| TrimmedAt(input, r, i);
  }

  /**
    A non-empty query shows exactly the stored rows whose lower-cased
    platforms contain it, in their stored order, and no others.
  */
  lemma FilterShowsMatches(all: seq<Row>, input: string, g: Row)
    requires Query(input) != ""
    ensures |FilterGames(all, input)| <= |all|
    ensures g in FilterGames(all, input) <==> g in all && Includes(Lower(g.platforms), Query(input))
    ensures forall h :: h in FilterGames(all, input) ==> h in all
  {
  }

  /** The filter keeps the stored order: the rows shown from a split list are those shown from each part, in turn. */
  lemma FilterKeepsOrder(all: seq<Row>, input: string, k: int)
    requires 0 <= k <= |all|
    ensures FilterGames(all, input) == FilterGames(all[..k], input) + FilterGames(all[k..], input)
  {
    assert all == all[..k] + all[k..];
    if Query(input) != "" {
      FilterConcat(all[..k], all[k..], Matches(Query(input)));
    }
  }

  /** Filtering what the filter shows, with the same input, changes nothing. */
  lemma FilterIsIdempotent(all: seq<Row>, input: string)
    ensures FilterGames(FilterGames(all, input), input) == FilterGames(all, input)
  {
    if Query(input) != "" {
      FilterIdempotent(all, Matches(Query(input)));
    }
  }

  lemma {:induction false} LowerTwice(s: string)
    ensures Lower(Lower(s)) == Lower(s)
  {
    if s != [] {
      LowerTwice(s[1..]);
    }
  }

  lemma {:induction false} LowerSlices(s: string, i: int, j: int)
    requires 0 <= i <= j <= |s|
    ensures Lower(s)[i..j] == Lower(s[i..j])
  {
    if i < j {
      forall k | 0 <= k < j - i
        ensures Lower(s)[i..j][k] == Lower(s[i..j])[k]
      {
        LowerAt(s, i + k);
        LowerAt(s[i..j], k);
      }
    }
  }

  lemma {:induction false} LowerAt(s: string, k: int)
    requires 0 <= k < |s|
    ensures Lower(s)[k] == LowerChar(s[k])
  {
    if k > 0 {
      LowerAt(s[1..], k - 1);
    }
  }

  /** Lower-casing keeps white space as it is and turns no other character into white space. */
  lemma LowerKeepsTrimmable(c: char)
    ensures IsTrimmable(LowerChar(c)) == IsTrimmable(c)
  {
  }

  lemma {:induction false} TrimStartLower(s: string)
    ensures TrimStart(Lower(s)) == Lower(TrimStart(s))
  {
    if s != [] {
      var ls := Lower(s);
      LowerKeepsTrimmable(s[0]);
      LowerFront(s);
      TrimStartFront(s);
      TrimStartFront(ls);
      if IsTrimmable(s[0]) {
        TrimStartLower(s[1..]);
      }
    }
  }

  lemma LowerFront(s: string)
    requires s != []
    ensures Lower(s)[0] == LowerChar(s[0]) && Lower(s)[1..] == Lower(s[1..])
  {
    assert Lower(s) == [LowerChar(s[0])] + Lower(s[1..]);
  }

  lemma TrimStartFront(s: string)
    requires s != []
    ensures TrimStart(s) == if IsTrimmable(s[0]) then TrimStart(s[1..]) else s
  {
  }

  lemma {:induction false} TrimEndLower(s: string)
    ensures TrimEnd(Lower(s)) == Lower(TrimEnd(s))
    decreases |s|
  {
    if s != [] {
      var n := |s|;
      LowerAt(s, n - 1);
      LowerKeepsTrimmable(s[n - 1]);
      if IsTrimmable(s[n - 1]) {
        LowerSlices(s, 0, n - 1);
        TrimEndLower(s[..n - 1]);
      }
    }
  }

  /** Trimming and lower-casing commute. */
  lemma TrimLower(s: string)
    ensures Trim(Lower(s)) == Lower(Trim(s))
  {
    TrimStartLower(s);
    TrimEndLower(TrimStart(s));
  }

  /** The filter ignores the case of the typed input. */
  lemma QueryIgnoresCase(all: seq<Row>, input: string)
    ensures FilterGames(all, Lower(input)) == FilterGames(all, input)
  {
    TrimLower(input);
    LowerTwice(Trim(input));
  }

  /**
    Only a row whose record had a truthy `cover.image_id` shows an image,
    and that image is the record's cover in the catalog's size.
  */
  lemma CoverShownForRecord(g: Catalog.Game, humanDate: int -> string)
    requires Catalog.HasReleaseDate(g)
    ensures var cell := GameCells(ToRow(g, humanDate)).cover;
      (cell.Image? <==> Catalog.HasCoverImage(g))
      && (cell.Image? ==> cell.src == Catalog.CoverPrefix + g.cover.value.imageId.value + Catalog.CoverSuffix)
  {
    Catalog.CoverUrlRoundTrip(g);
  }

  /**
    The table has one game row per game, in order, and a header row with
    the game's humanDate right before it exactly when its date differs from
    the previous game's (always before the first game).
  */
  lemma TableLayout(games: seq<Row>, k: int)
    requires 0 <= k < |games|
    ensures Items(Table(games)) == Map(games, GameCells)
    ensures var out := Table(games);
      var p := |GroupedPrefix(games, RowDate, RowHumanDate, GameCells, k)| + (if StartsGroup(games, RowDate, k) then 1 else 0);
      p < |out| && out[p] == Body(GameCells(games[k]))
      && ((k == 0 || games[k - 1].date != games[k].date) <==> (p > 0 && out[p - 1].Header?))
      && ((k == 0 || games[k - 1].date != games[k].date) ==> out[p - 1] == Header(games[k].humanDate))
  {
    GroupedItems(games, RowDate, RowHumanDate, GameCells);
    HeaderPrecedesExactly(games, RowDate, RowHumanDate, GameCells, k);
  }

  /** After the server's sort, rows with equal dates stand together. */
  lemma SortedRowsContiguous(rows: seq<Row>)
    requires forall i, j :: 0 <= i < j < |rows| ==> !Less(rows[j].date, rows[i].date)
    ensures KeysContiguous(rows, RowDate)
  {
    forall i, j, k | 0 <= i <= j <= k < |rows| && RowDate(rows[i]) == RowDate(rows[k])
      ensures RowDate(rows[j]) == RowDate(rows[i])
    {
      LessTotal(rows[i].date, rows[j].date);
      if i < j && j < k {
        assert !Less(rows[i].date, rows[j].date) by {
          assert !Less(rows[k].date, rows[j].date);
        }
      }
    }
  }

  /**
    For the rows the endpoint returns, every date heads exactly one group of
    the table: no two header rows are for the same date.
  */
  lemma ServerTableOneHeaderPerDate(games: seq<Catalog.Game>, humanDate: int -> string, i: int, j: int)
    requires var rows := Sort(PushedRows(games, humanDate), DateLe);
      0 <= i < j < |rows| && StartsGroup(rows, RowDate, i) && StartsGroup(rows, RowDate, j)
    ensures var rows := Sort(PushedRows(games, humanDate), DateLe);
      rows[i].date != rows[j].date
  {
    var rows := Sort(PushedRows(games, humanDate), DateLe);
    SortedOutput(games, humanDate, "");
    SortedRowsContiguous(rows);
    OneGroupPerKey(rows, RowDate, i, j);
  }
}
