/**
  `formatGames` of next-month.js: keeps the records with a release date,
  sorts them by instant and prints them grouped by UTC day, a header line
  before the first game of each day and one bullet line per game.
*/
module NextMonth {
  import opened Wrappers
  import opened Seqs
  import opened StableSort
  import opened Catalog
  import opened JsDate
  import opened Grouping

  /** A pushed row; `date` is the Date object's time value. */
  datatype Entry = Entry(name: Option<string>, slug: Option<string>, date: Num, humanDate: string, platforms: string)

  const Placeholder: string := "Unknown platform"

  /** `toLocaleDateString` yields "Invalid Date" for an Invalid Date and is opaque otherwise. */
  function HumanDate(t: Num, humanDate: int -> string): string {
    match t
    case Finite(ms) => humanDate(ms)
    case NaN => "Invalid Date"
  }

  function ToEntry(g: Game, humanDate: int -> string): Entry
    requires HasReleaseDate(g)
  {
    var date := TimeClip(ReleaseMs(g));
    Entry(g.name, g.slug, date, HumanDate(date, humanDate), PlatformSummary(g, Placeholder))
  }

  /** The rows as pushed by the first loop, before sorting. */
  function PushedEntries(games: seq<Game>, humanDate: int -> string): seq<Entry> {
    if games == [] then []
    else
      var last := games[|games| - 1];
      PushedEntries(games[..|games| - 1], humanDate) + (if HasReleaseDate(last) then [ToEntry(last, humanDate)] else [])
  }

  /**
    The comparator `a.date - b.date` is at most 0; a NaN difference (an
    Invalid Date on either side) counts as 0, as `Array.prototype.sort` treats it.
  */
  predicate TimeLe(a: Entry, b: Entry) {
    match (a.date, b.date)
    case (Finite(x), Finite(y)) => x - y <= 0
    case _ => true
  }

  /** `row.date.toISOString().slice(0, 10)`; only taken of valid dates. */
  function DayKey(e: Entry): string {
    match e.date
    case Finite(ms) => IsoDayKey(ms)
    case NaN => ""
  }

  function Title(e: Entry): string {
    e.humanDate
  }

  function Bullet(e: Entry): string {
    "• " + Interpolated(e.name) + " (" + e.platforms + ")"
  }

  function HeaderText(humanDate: string): string {
    "\n=== " + humanDate + " ==="
  }

  function LineText(line: Line<string>): string {
    match line
    case Header(t) => HeaderText(t)
    case Body(b) => b
  }

  /** The console lines of a grouped listing. */
  function Render(lines: seq<Line<string>>): seq<string> {
    Map(lines, LineText)
  }

  /** The record's instant is no valid time value, so `toISOString` throws in the listing loop. */
  predicate Throws(g: Game) {
    HasReleaseDate(g) && !IsValidTime(ReleaseMs(g))
  }

  /** What `formatGames` ends with: the "No games found" message, a listing, or a RangeError. */
  datatype Outcome = NoGames | Printed(lines: seq<string>) | Thrown

  method FormatGames(games: seq<Game>, humanDate: int -> string) returns (outcome: Outcome)
    ensures outcome.NoGames? <==> forall i :: 0 <= i < |games| ==> !HasReleaseDate(games[i])
    ensures outcome.Thrown? <==> exists i :: 0 <= i < |games| && Throws(games[i])
    ensures outcome.Printed? ==>
      outcome.lines == Render(Grouped(Sort(PushedEntries(games, humanDate), TimeLe), DayKey, Title, Bullet))
  {
    var rows: seq<Entry> := [];
    var i := 0;
    while i < |games|
      invariant 0 <= i <= |games|
      invariant rows == PushedEntries(games[..i], humanDate)
    {
      var game := games[i];
      assert games[..i + 1][..i] == games[..i];
      if HasReleaseDate(game) {
        var date := TimeClip(game.firstReleaseDate.value * 1000);
        var human := HumanDate(date, humanDate);
        var platforms := PlatformSummary(game, Placeholder);
        rows := rows + [Entry(game.name, game.slug, date, human, platforms)];
      }
      i := i + 1;
    }
    assert games[..|games|] == games;
    PushedEntriesCount(games, humanDate);
    PushedEntriesDates(games, humanDate);
    FilterEmpty(games, HasReleaseDate);
    SortKeepsEntries(rows);
    rows := Sort(rows, TimeLe);

    if |rows| == 0 {
      return NoGames;
    }

    outcome := PrintDays(rows, DayKey);
  }

  /** The listing loop of `formatGames`, walking the sorted rows with `currentDay`. */
  method PrintDays(rows: seq<Entry>, dayKey: Entry -> string) returns (outcome: Outcome)
    ensures outcome.Printed? || outcome.Thrown?
    ensures outcome.Thrown? <==> exists j :: 0 <= j < |rows| && rows[j].date.NaN?
    ensures outcome.Printed? ==> outcome.lines == Render(Grouped(rows, dayKey, Title, Bullet))
  {
    var lines: seq<string> := [];
    var currentDay: Option<string> := None;
    var k := 0;
    while k < |rows|
      invariant 0 <= k <= |rows|
      invariant lines == Render(GroupedPrefix(rows, dayKey, Title, Bullet, k))
      invariant k == 0 ==> currentDay == None
      invariant k > 0 ==> currentDay == Some(dayKey(rows[k - 1]))
      invariant forall j :: 0 <= j < k ==> rows[j].date.Finite?
    {
      var row := rows[k];
      if row.date.NaN? {
        return Thrown;
      }
      var key := dayKey(row);
      RenderStep(rows, dayKey, k);
      assert StartsGroup(rows, dayKey, k) <==> Some(key) != currentDay;
      if Some(key) != currentDay {
        currentDay := Some(key);
        lines := lines + [HeaderText(row.humanDate)];
      }
      lines := lines + [Bullet(row)];
      k := k + 1;
    }
    return Printed(lines);
  }

  /** Sorting keeps the number of entries and whether any date is Invalid. */
  lemma SortKeepsEntries(s: seq<Entry>)
    ensures |Sort(s, TimeLe)| == |s|
    ensures (exists j :: 0 <= j < |Sort(s, TimeLe)| && Sort(s, TimeLe)[j].date.NaN?)
        <==> (exists e :: e in s && e.date.NaN?)
  {
    var r := Sort(s, TimeLe);
    SortPermutes(s, TimeLe);
    assert |multiset(r)| == |multiset(s)|;
    if exists e :: e in s && e.date.NaN? {
      var e :| e in s && e.date.NaN?;
      assert e in multiset(r);
      var j :| 0 <= j < |r| && r[j] == e;
    }
    if exists j :: 0 <= j < |r| && r[j].date.NaN? {
      var j :| 0 <= j < |r| && r[j].date.NaN?;
      assert r[j] in multiset(s);
    }
  }

  /** The console lines for row k: a header when it opens a day, then its bullet. */
  lemma RenderStep(rows: seq<Entry>, dayKey: Entry -> string, k: int)
    requires 0 <= k < |rows|
    ensures Render(GroupedPrefix(rows, dayKey, Title, Bullet, k + 1))
         == Render(GroupedPrefix(rows, dayKey, Title, Bullet, k))
          + (if StartsGroup(rows, dayKey, k) then [HeaderText(rows[k].humanDate)] else [])
          + [Bullet(rows[k])]
  {
    var prefix := GroupedPrefix(rows, dayKey, Title, Bullet, k);
    var h: seq<Line<string>> := if StartsGroup(rows, dayKey, k) then [Header(Title(rows[k]))] else [];
    MapConcat(prefix, h + [Body(Bullet(rows[k]))], LineText);
    MapConcat(h, [Body(Bullet(rows[k]))], LineText);
  }

  /** The first loop treats the records one at a time: the entries of a + b are those of a, then those of b. */
  lemma {:induction false} PushedEntriesConcat(a: seq<Game>, b: seq<Game>, humanDate: int -> string)
    ensures PushedEntries(a + b, humanDate) == PushedEntries(a, humanDate) + PushedEntries(b, humanDate)
    decreases |b|
  {
    if b == [] {
      assert a + b == a;
    } else {
      var n := |b|;
      var last := b[n - 1];
      assert (a + b)[..|a + b| - 1] == a + b[..n - 1];
      assert (a + b)[|a + b| - 1] == last;
      PushedEntriesConcat(a, b[..n - 1], humanDate);
      var tail := if HasReleaseDate(last) then [ToEntry(last, humanDate)] else [];
      assert PushedEntries(b, humanDate) == PushedEntries(b[..n - 1], humanDate) + tail;
    }
  }

  /** A record with a falsy release date gives no entry, whatever its other fields hold. */
  lemma UndatedEntryIgnored(a: seq<Game>, g: Game, b: seq<Game>, humanDate: int -> string)
    requires !HasReleaseDate(g)
    ensures PushedEntries(a + [g] + b, humanDate) == PushedEntries(a + b, humanDate)
  {
    PushedEntriesConcat(a + [g], b, humanDate);
    PushedEntriesConcat(a, [g], humanDate);
    PushedEntriesConcat(a, b, humanDate);
    assert [g][..0] == [];
    assert PushedEntries([g], humanDate) == [];
  }

  /** One entry per record with a truthy release date. */
  lemma {:induction false} PushedEntriesCount(games: seq<Game>, humanDate: int -> string)
    ensures |PushedEntries(games, humanDate)| == |Filter(games, HasReleaseDate)|
  {
    if games != [] {
      var n := |games|;
      PushedEntriesCount(games[..n - 1], humanDate);
      assert games == games[..n - 1] + [games[n - 1]];
      FilterConcat(games[..n - 1], [games[n - 1]], HasReleaseDate);
    }
  }

  /** A pushed date is Invalid exactly when its record throws, and valid otherwise. */
  lemma {:induction false} PushedEntriesDates(games: seq<Game>, humanDate: int -> string)
    ensures forall e :: e in PushedEntries(games, humanDate) && e.date.Finite? ==> IsValidTime(e.date.value)
    ensures (exists e :: e in PushedEntries(games, humanDate) && e.date.NaN?)
        <==> exists i :: 0 <= i < |games| && Throws(games[i])
  {
    if games != [] {
      var n := |games|;
      var init, last := games[..n - 1], games[n - 1];
      PushedEntriesDates(init, humanDate);
      var tail: seq<Entry> := if HasReleaseDate(last) then [ToEntry(last, humanDate)] else [];
      assert PushedEntries(games, humanDate) == PushedEntries(init, humanDate) + tail;
      assert forall e :: e in tail ==> e.date == TimeClip(ReleaseMs(last));
      if exists i :: 0 <= i < n && Throws(games[i]) {
        var i :| 0 <= i < n && Throws(games[i]);
        if i < n - 1 {
          assert Throws(init[i]);
        }
      }
      if exists i :: 0 <= i < n - 1 && Throws(init[i]) {
        var i :| 0 <= i < n - 1 && Throws(init[i]);
        assert Throws(games[i]);
      }
    }
  }

  /** Every entry carries a valid time value. */
  predicate AllDated(s: seq<Entry>) {
    forall i :: 0 <= i < |s| ==> s[i].date.Finite? && IsValidTime(s[i].date.value)
  }

  /** The instant an entry sorts by; consulted only for valid dates. */
  function Instant(e: Entry): int {
    match e.date
    case Finite(ms) => ms
    case NaN => 0
  }

  /** Ascending order of instants: a total preorder that agrees with TimeLe on valid dates. */
  predicate InstantLe(a: Entry, b: Entry) {
    Instant(a) <= Instant(b)
  }

  lemma InstantLeIsTotalPreorder()
    ensures TotalPreorder(InstantLe)
  {
  }

  /** On entries with valid dates the comparator is the order of instants. */
  lemma SortByInstant(s: seq<Entry>)
    requires AllDated(s)
    ensures Sort(s, TimeLe) == Sort(s, InstantLe)
  {
    forall a, b | a in s && b in s
      ensures TimeLe(a, b) == InstantLe(a, b)
    {
      var i :| 0 <= i < |s| && s[i] == a;
      var j :| 0 <= j < |s| && s[j] == b;
    }
    SortAgree(s, TimeLe, InstantLe);
  }

  lemma SortedStaysDated(s: seq<Entry>)
    requires AllDated(s)
    ensures AllDated(Sort(s, TimeLe))
  {
    var r := Sort(s, TimeLe);
    SortPermutes(s, TimeLe);
    forall i | 0 <= i < |r|
      ensures r[i].date.Finite? && IsValidTime(r[i].date.value)
    {
      assert r[i] in multiset(s);
      var j :| 0 <= j < |s| && s[j] == r[i];
    }
  }

  /** In instant order equal day keys stand together. */
  lemma SortedKeysContiguous(s: seq<Entry>)
    requires AllDated(s) && Sorted(s, InstantLe)
    ensures KeysContiguous(s, DayKey)
  {
    forall i, j, k | 0 <= i <= j <= k < |s| && DayKey(s[i]) == DayKey(s[k])
      ensures DayKey(s[j]) == DayKey(s[i])
    {
      assert InstantLe(s[i], s[j]) && InstantLe(s[j], s[k]);
      EntryKeysConvex(s[i], s[j], s[k]);
    }
  }

  lemma EntryKeysConvex(x: Entry, y: Entry, w: Entry)
    requires x.date.Finite? && IsValidTime(x.date.value) && w.date.Finite? && IsValidTime(w.date.value)
    requires y.date.Finite? && InstantLe(x, y) && InstantLe(y, w) && DayKey(x) == DayKey(w)
    ensures DayKey(y) == DayKey(x)
  {
    IsoDayKeyConvex(x.date.value, y.date.value, w.date.value);
  }

  /** The entries at one instant. */
  function AtInstant(t: int): Entry -> bool {
    (e: Entry) => e.date == Finite(t)
  }

  lemma PushedDated(games: seq<Game>, humanDate: int -> string)
    requires forall i :: 0 <= i < |games| ==> !Throws(games[i])
    ensures AllDated(PushedEntries(games, humanDate))
  {
    var pushed := PushedEntries(games, humanDate);
    PushedEntriesDates(games, humanDate);
    forall i | 0 <= i < |pushed|
      ensures pushed[i].date.Finite? && IsValidTime(pushed[i].date.value)
    {
      assert pushed[i] in pushed;
    }
  }

  /**
    When no record throws, the listing walks the kept records sorted
    ascending by instant, a permutation of them in which each UTC day's
    records stand together, so that every day heads exactly one group.
  */
  lemma ListingOrder(games: seq<Game>, humanDate: int -> string)
    requires forall i :: 0 <= i < |games| ==> !Throws(games[i])
    ensures var pushed := PushedEntries(games, humanDate); var out := Sort(pushed, TimeLe);
      AllDated(out)
      && (forall i, j :: 0 <= i < j < |out| ==> out[i].date.value <= out[j].date.value)
      && multiset(out) == multiset(pushed)
      && KeysContiguous(out, DayKey)
  {
    var pushed := PushedEntries(games, humanDate);
    PushedDated(games, humanDate);
    var out := Sort(pushed, TimeLe);
    SortByInstant(pushed);
    SortedStaysDated(pushed);
    InstantLeIsTotalPreorder();
    SortSorted(pushed, InstantLe);
    SortPermutes(pushed, TimeLe);
    SortedKeysContiguous(out);
    forall i, j | 0 <= i < j < |out|
      ensures out[i].date.value <= out[j].date.value
    {
      assert InstantLe(out[i], out[j]);
    }
  }

  /** An entry at instant t, standing for it in the comparator. */
  function Probe(t: int): Entry {
    Entry(None, None, Finite(t), "", "")
  }

  lemma SameRankAtInstant(s: seq<Entry>, t: int)
    requires AllDated(s)
    ensures forall e :: e in s ==> SameRank(InstantLe, Probe(t))(e) == AtInstant(t)(e)
  {
    forall e | e in s
      ensures SameRank(InstantLe, Probe(t))(e) == AtInstant(t)(e)
    {
      var i :| 0 <= i < |s| && s[i] == e;
      assert e.date.Finite?;
      assert SameRank(InstantLe, Probe(t))(e) == (InstantLe(e, Probe(t)) && InstantLe(Probe(t), e));
      assert Instant(Probe(t)) == t;
    }
  }

  lemma StableAtInstant(s: seq<Entry>, t: int)
    requires AllDated(s)
    ensures Filter(Sort(s, TimeLe), AtInstant(t)) == Filter(s, AtInstant(t))
  {
    var out := Sort(s, TimeLe);
    SortByInstant(s);
    InstantLeIsTotalPreorder();
    SortStable(s, InstantLe, Probe(t));
    SortedStaysDated(s);
    SameRankAtInstant(out, t);
    SameRankAtInstant(s, t);
    FilterAgree(out, SameRank(InstantLe, Probe(t)), AtInstant(t));
    FilterAgree(s, SameRank(InstantLe, Probe(t)), AtInstant(t));
  }

  /** Records released at the same instant are listed in their input order. */
  lemma ListingStable(games: seq<Game>, humanDate: int -> string, t: int)
    requires forall i :: 0 <= i < |games| ==> !Throws(games[i])
    ensures var pushed := PushedEntries(games, humanDate);
      Filter(Sort(pushed, TimeLe), AtInstant(t)) == Filter(pushed, AtInstant(t))
  {
    PushedDated(games, humanDate);
    StableAtInstant(PushedEntries(games, humanDate), t);
  }

  /**
    In a listing no two day headers are for the same UTC day, and every
    game's day has a header at or before it.
  */
  lemma OneHeaderPerDay(games: seq<Game>, humanDate: int -> string, i: int, j: int)
    requires forall g :: 0 <= g < |games| ==> !Throws(games[g])
    requires var out := Sort(PushedEntries(games, humanDate), TimeLe);
      0 <= i < j < |out| && StartsGroup(out, DayKey, i) && StartsGroup(out, DayKey, j)
    ensures var out := Sort(PushedEntries(games, humanDate), TimeLe);
      DayKey(out[i]) != DayKey(out[j])
  {
    ListingOrder(games, humanDate);
    OneGroupPerKey(Sort(PushedEntries(games, humanDate), TimeLe), DayKey, i, j);
  }
}
