/**
 * The chess widget's data source: the player's current rapid and blitz ratings
 * and how much each moved over the last thirty days.
 *
 * The three network calls (the stats endpoint and two monthly game archives) and
 * the clock are inputs here, so that `GetChessData` is a function of what those
 * calls returned.
 */
module Chess {

  datatype Option<+T> = None | Some(value: T)

  /** One side of a finished game: who played it and their rating then. */
  datatype Side = Side(username: string, rating: int)

  /** A finished game as listed in a monthly archive (`endTime` in unix seconds). */
  datatype ChessGame = ChessGame(endTime: int, timeClass: string, white: Side, black: Side)

  /** The `last` entry of a category in the stats response. */
  datatype RatingPoint = RatingPoint(rating: int, date: int)

  /** A category of the stats response; `last` may be missing from the JSON. */
  datatype ChessRating = ChessRating(last: Option<RatingPoint>)

  /** The stats response: either category may be absent. */
  datatype ChessStats = ChessStats(chessRapid: Option<ChessRating>, chessBlitz: Option<ChessRating>)

  /** What the widget shows for one category. */
  datatype Delta = Delta(current: int, change: int)

  /** The report: a category is None when it cannot be shown. */
  datatype ChessData = ChessData(rapid: Option<Delta>, blitz: Option<Delta>)

  /** A calendar month; `month` runs from 1 (January) to 12. */
  datatype YearMonth = YearMonth(year: int, month: int)

  /** What the request for one month's archive came back with. */
  datatype MonthResponse =
    | NotOk                               // an HTTP status outside 2xx
    | Threw                               // a transport error, or a body that is not JSON
    | Ok(games: Option<seq<ChessGame>>)   // the parsed body; None when it has no `games`

  const ChessUsername: string := "kevin_on"

  /** Thirty days in milliseconds. */
  const ThirtyDaysMs: int := 30 * 24 * 60 * 60 * 1000

  const NoData: ChessData := ChessData(None, None)

  // ---------------------------------------------------------------------------
  // Case-insensitive comparison of usernames

  /** Lower-cases an ASCII capital and leaves every other character alone. */
  function LowerChar(c: char): (r: char) {
    if IsUpper(c) then (c as int + 32) as char else c
  }

  /** `toLowerCase`, on the ASCII letters. */
  function ToLower(s: string): (r: string)
    ensures |r| == |s|
    ensures forall i :: 0 <= i < |s| ==> r[i] == LowerChar(s[i])
  {
    if s == [] then [] else [LowerChar(s[0])] + ToLower(s[1..])
  }

  predicate IsUpper(c: char) {
    'A' <= c <= 'Z'
  }

  /** Two characters are the same letter, one of them possibly in upper case. */
  predicate SameIgnoringCase(a: char, b: char) {
    || a == b
    || (IsUpper(a) && b as int == a as int + 32)
    || (IsUpper(b) && a as int == b as int + 32)
  }

  predicate EqualIgnoringCase(s: string, t: string) {
    |s| == |t| && forall i :: 0 <= i < |s| ==> SameIgnoringCase(s[i], t[i])
  }

  predicate HasNoUpper(t: string) {
    forall i :: 0 <= i < |t| ==> !IsUpper(t[i])
  }

  /** Lower-casing a name and comparing it with a lower-case name is a
      case-insensitive comparison. */
  lemma ToLowerEqualsIff(s: string, t: string)
    requires HasNoUpper(t)
    ensures ToLower(s) == t <==> EqualIgnoringCase(s, t)
  {
    if ToLower(s) == t {
      forall i | 0 <= i < |s| ensures SameIgnoringCase(s[i], t[i]) {
        assert t[i] == LowerChar(s[i]);
      }
    }
    if EqualIgnoringCase(s, t) {
      forall i | 0 <= i < |s| ensures ToLower(s)[i] == t[i] {
        assert SameIgnoringCase(s[i], t[i]) && !IsUpper(t[i]);
      }
    }
  }

  lemma UsernameHasNoUpper()
    ensures HasNoUpper(ChessUsername)
  {
    assert ChessUsername == ['k', 'e', 'v', 'i', 'n', '_', 'o', 'n'];
  }

  // ---------------------------------------------------------------------------
  // findRatingAtDate

  /** A game counts for the look-back when it is of the category and ended at or
      before the cutoff. */
  predicate Qualifies(g: ChessGame, timeClass: string, targetDate: int) {
    g.timeClass == timeClass && g.endTime <= targetDate
  }

  /** Index `i` is the game the look-back picks: it qualifies, no qualifying game
      ended later, and every qualifying game listed before it ended strictly
      earlier (the sort keeps equal end times in list order). */
  predicate IsPicked(games: seq<ChessGame>, timeClass: string, targetDate: int, i: int) {
    && 0 <= i < |games|
    && Qualifies(games[i], timeClass, targetDate)
    && (forall j :: 0 <= j < |games| && Qualifies(games[j], timeClass, targetDate) ==>
          games[j].endTime <= games[i].endTime)
    && (forall j :: 0 <= j < i && Qualifies(games[j], timeClass, targetDate) ==>
          games[j].endTime < games[i].endTime)
  }

  /** At most one index is picked. */
  lemma PickedIsUnique(games: seq<ChessGame>, timeClass: string, targetDate: int, i: int, k: int)
    requires IsPicked(games, timeClass, targetDate, i)
    requires IsPicked(games, timeClass, targetDate, k)
    ensures i == k
  {
  }

  /** Keeps the games of the category that ended at or before the target date,
      in list order and with repeats. */
  function FilterGames(games: seq<ChessGame>, timeClass: string, targetDate: int): (r: seq<ChessGame>)
    ensures forall g :: g in r ==> g in games && Qualifies(g, timeClass, targetDate)
    ensures forall g :: g in games && Qualifies(g, timeClass, targetDate) ==> g in r
  {
    if games == [] then []
    else if Qualifies(games[0], timeClass, targetDate) then
      [games[0]] + FilterGames(games[1..], timeClass, targetDate)
    else
      FilterGames(games[1..], timeClass, targetDate)
  }

  /** Filtering a concatenation filters each part: with the one-game case
      (the body's step) this fixes the order and multiplicity of what is kept. */
  lemma {:induction false} FilterAppend(a: seq<ChessGame>, b: seq<ChessGame>, timeClass: string, targetDate: int)
    ensures FilterGames(a + b, timeClass, targetDate)
         == FilterGames(a, timeClass, targetDate) + FilterGames(b, timeClass, targetDate)
  {
    if a != [] {
      assert (a + b)[1..] == a[1..] + b;
      FilterAppend(a[1..], b, timeClass, targetDate);
    } else {
      assert a + b == b;
    }
  }

  /** A single game is kept exactly when it qualifies. */
  lemma FilterOne(g: ChessGame, timeClass: string, targetDate: int)
    ensures FilterGames([g], timeClass, targetDate) == if Qualifies(g, timeClass, targetDate) then [g] else []
  {
  }

  predicate NewestFirst(s: seq<ChessGame>) {
    forall i, j :: 0 <= i < j < |s| ==> s[i].endTime >= s[j].endTime
  }

  /** Inserts `x` into a newest-first list ahead of every game that ended no
      later than it, as a stable sort does with an element listed first. */
  function InsertNewestFirst(x: ChessGame, s: seq<ChessGame>): (r: seq<ChessGame>)
    requires NewestFirst(s)
    ensures NewestFirst(r)
    ensures |r| == |s| + 1 && multiset(r) == multiset(s) + multiset{x}
    ensures forall g :: g in r ==> g == x || g in s
    ensures r[0] == if s == [] || x.endTime >= s[0].endTime then x else s[0]
  {
    if s == [] || x.endTime >= s[0].endTime then
      [x] + s
    else
      assert s == [s[0]] + s[1..];
      [s[0]] + InsertNewestFirst(x, s[1..])
  }

  /** How many games of a newest-first list ended strictly later than `x`. */
  function InsertionPoint(x: ChessGame, s: seq<ChessGame>): (k: nat)
    ensures k <= |s|
  {
    if s == [] || x.endTime >= s[0].endTime then 0 else 1 + InsertionPoint(x, s[1..])
  }

  /** The games before the insertion point ended strictly later than `x`; the
      games from it on ended no later. */
  lemma {:induction false} InsertionPointSplits(x: ChessGame, s: seq<ChessGame>)
    requires NewestFirst(s)
    ensures forall j :: 0 <= j < InsertionPoint(x, s) ==> s[j].endTime > x.endTime
    ensures forall j :: InsertionPoint(x, s) <= j < |s| ==> s[j].endTime <= x.endTime
  {
    if s != [] && x.endTime < s[0].endTime {
      var rest := s[1..];
      InsertionPointSplits(x, rest);
      forall j | 0 < j < |s| ensures s[j] == rest[j - 1] { }
    }
  }

  /** Putting a game back in front of a tail split at `n` gives the whole list
      split at `n + 1`. */
  lemma ConsSplit(s: seq<ChessGame>, x: ChessGame, n: nat)
    requires n < |s|
    ensures [s[0]] + (s[1..][..n] + [x] + s[1..][n..]) == s[..n + 1] + [x] + s[n + 1..]
  {
    assert s[..n + 1] == [s[0]] + s[1..][..n];
    assert s[n + 1..] == s[1..][n..];
  }

  /** Insertion puts `x` at the insertion point (see InsertionPointSplits) and
      leaves the rest of the list as it was. */
  lemma {:induction false} InsertPosition(x: ChessGame, s: seq<ChessGame>)
    requires NewestFirst(s)
    ensures InsertNewestFirst(x, s) == s[..InsertionPoint(x, s)] + [x] + s[InsertionPoint(x, s)..]
  {
    if s == [] || x.endTime >= s[0].endTime {
      assert s[..0] + [x] + s[0..] == [x] + s;
    } else {
      var rest := s[1..];
      assert NewestFirst(rest);
      var k' := InsertionPoint(x, rest);
      InsertPosition(x, rest);
      ConsSplit(s, x, k');
    }
  }

  /** Sorts newest first, keeping games that ended at the same second in list
      order (a stable sort). */
  function SortNewestFirst(s: seq<ChessGame>): (r: seq<ChessGame>)
    ensures NewestFirst(r)
    ensures |r| == |s| && multiset(r) == multiset(s)
  {
    if s == [] then []
    else
      assert s == [s[0]] + s[1..];
      InsertNewestFirst(s[0], SortNewestFirst(s[1..]))
  }

  /** The newest game of a non-empty list, the first-listed one among equals. */
  function Latest(s: seq<ChessGame>): (r: ChessGame)
    requires |s| > 0
    ensures r in s
    ensures forall g :: g in s ==> g.endTime <= r.endTime
  {
    if |s| == 1 then s[0]
    else
      var rest := Latest(s[1..]);
      if s[0].endTime >= rest.endTime then s[0] else rest
  }

  /** The head of the stable newest-first sort is `Latest`. */
  lemma {:induction false} SortHeadIsLatest(s: seq<ChessGame>)
    requires |s| > 0
    ensures SortNewestFirst(s)[0] == Latest(s)
  {
    if |s| > 1 {
      SortHeadIsLatest(s[1..]);
    }
  }

  /** A game picked among the later games stays picked when the first game
      ended earlier or does not qualify. */
  lemma PickedInRest(games: seq<ChessGame>, timeClass: string, targetDate: int, k: int)
    requires |games| > 0 && IsPicked(games[1..], timeClass, targetDate, k)
    requires Qualifies(games[0], timeClass, targetDate) ==> games[0].endTime < games[k + 1].endTime
    ensures IsPicked(games, timeClass, targetDate, k + 1)
  {
    var rest := games[1..];
    assert games[k + 1] == rest[k];
    forall j | 0 <= j < |games| && Qualifies(games[j], timeClass, targetDate)
      ensures games[j].endTime <= games[k + 1].endTime
    {
      if j > 0 { assert games[j] == rest[j - 1]; }
    }
    forall j | 0 <= j < k + 1 && Qualifies(games[j], timeClass, targetDate)
      ensures games[j].endTime < games[k + 1].endTime
    {
      if j > 0 { assert games[j] == rest[j - 1]; }
    }
  }

  /** The first game is picked when it qualifies and no later qualifying game
      ended after it. */
  lemma PickedAtHead(games: seq<ChessGame>, timeClass: string, targetDate: int)
    requires |games| > 0 && Qualifies(games[0], timeClass, targetDate)
    requires forall g :: g in games[1..] && Qualifies(g, timeClass, targetDate) ==> g.endTime <= games[0].endTime
    ensures IsPicked(games, timeClass, targetDate, 0)
  {
    forall j | 0 <= j < |games| && Qualifies(games[j], timeClass, targetDate)
      ensures games[j].endTime <= games[0].endTime
    {
      if j > 0 { assert games[j] == games[1..][j - 1]; }
    }
  }

  /** `Latest` of the filtered games is the picked game of the whole list. */
  lemma {:induction false} LatestOfFilteredIsPicked(games: seq<ChessGame>, timeClass: string, targetDate: int)
    requires |FilterGames(games, timeClass, targetDate)| > 0
    ensures exists i :: IsPicked(games, timeClass, targetDate, i)
                        && games[i] == Latest(FilterGames(games, timeClass, targetDate))
  {
    var rest := games[1..];
    var filteredRest := FilterGames(rest, timeClass, targetDate);
    if !Qualifies(games[0], timeClass, targetDate) {
      LatestOfFilteredIsPicked(rest, timeClass, targetDate);
      var k :| IsPicked(rest, timeClass, targetDate, k) && rest[k] == Latest(filteredRest);
      PickedInRest(games, timeClass, targetDate, k);
      assert games[k + 1] == rest[k];
    } else if filteredRest == [] {
      PickedAtHead(games, timeClass, targetDate);
    } else {
      LatestOfFilteredIsPicked(rest, timeClass, targetDate);
      var k :| IsPicked(rest, timeClass, targetDate, k) && rest[k] == Latest(filteredRest);
      var filtered := FilterGames(games, timeClass, targetDate);
      assert filtered[1..] == filteredRest;
      if games[0].endTime >= rest[k].endTime {
        PickedAtHead(games, timeClass, targetDate);
      } else {
        PickedInRest(games, timeClass, targetDate, k);
        assert games[k + 1] == rest[k];
      }
    }
  }

  /** Filters, sorts newest first and takes the head (`filtered[0]`). */
  function SelectGame(games: seq<ChessGame>, timeClass: string, targetDate: int): (r: Option<ChessGame>)
    ensures r.None? <==> forall g :: g in games ==> !Qualifies(g, timeClass, targetDate)
    ensures r.Some? ==> exists i :: IsPicked(games, timeClass, targetDate, i) && r.value == games[i]
  {
    var qualifying := FilterGames(games, timeClass, targetDate);
    var filtered := SortNewestFirst(qualifying);
    if |filtered| == 0 then
      None
    else
      assert qualifying[0] in qualifying;
      SortHeadIsLatest(qualifying);
      LatestOfFilteredIsPicked(games, timeClass, targetDate);
      Some(filtered[0])
  }

  /** The rating on the player's side of a game: white when the white username,
      lower-cased, is the player's; black otherwise, whoever is on black. */
  function PlayerRating(game: ChessGame): (r: int)
    ensures r == if EqualIgnoringCase(game.white.username, ChessUsername)
                 then game.white.rating else game.black.rating
  {
    UsernameHasNoUpper();
    ToLowerEqualsIff(game.white.username, ChessUsername);
    if ToLower(game.white.username) == ChessUsername then game.white.rating else game.black.rating
  }

  /** `findRatingAtDate`: the player's rating in the newest game of the category
      that ended at or before `targetDate`, or None when there is none. */
  function FindRatingAtDate(games: seq<ChessGame>, timeClass: string, targetDate: int): (r: Option<int>)
    ensures r.None? <==> forall g :: g in games ==> !Qualifies(g, timeClass, targetDate)
    ensures r.Some? ==> exists i :: IsPicked(games, timeClass, targetDate, i) && r.value == PlayerRating(games[i])
  {
    match SelectGame(games, timeClass, targetDate)
    case None => None
    case Some(game) => Some(PlayerRating(game))
  }

  /** The end time of the selected game does not depend on the order the games
      are listed in. */
  lemma SelectedEndTimeIgnoresOrder(s: seq<ChessGame>, t: seq<ChessGame>, timeClass: string, targetDate: int)
    requires multiset(s) == multiset(t)
    ensures SelectGame(s, timeClass, targetDate).Some? == SelectGame(t, timeClass, targetDate).Some?
    ensures SelectGame(s, timeClass, targetDate).Some? ==>
              SelectGame(s, timeClass, targetDate).value.endTime == SelectGame(t, timeClass, targetDate).value.endTime
  {
    assert forall g :: g in s <==> g in t by {
      forall g ensures g in s <==> g in t {
        assert g in s <==> g in multiset(s);
        assert g in t <==> g in multiset(t);
      }
    }
    var a := SelectGame(s, timeClass, targetDate);
    var b := SelectGame(t, timeClass, targetDate);
    if a.Some? {
      var i :| IsPicked(s, timeClass, targetDate, i) && a.value == s[i];
      var k :| IsPicked(t, timeClass, targetDate, k) && b.value == t[k];
      assert s[i] in t;
      assert t[k] in s;
    }
  }

  /** When qualifying games that ended at the same second agree on the player's
      rating, the order of the games does not change the rating found. */
  lemma FindRatingIgnoresOrder(s: seq<ChessGame>, t: seq<ChessGame>, timeClass: string, targetDate: int)
    requires multiset(s) == multiset(t)
    requires forall g, h :: (g in s && h in s && Qualifies(g, timeClass, targetDate) && Qualifies(h, timeClass, targetDate)
                             && g.endTime == h.endTime) ==> PlayerRating(g) == PlayerRating(h)
    ensures FindRatingAtDate(s, timeClass, targetDate) == FindRatingAtDate(t, timeClass, targetDate)
  {
    SelectedEndTimeIgnoresOrder(s, t, timeClass, targetDate);
    var a := SelectGame(s, timeClass, targetDate);
    var b := SelectGame(t, timeClass, targetDate);
    if a.Some? {
      assert b.value in multiset(t);
      assert b.value in s;
      assert a.value in s by {
        var i :| IsPicked(s, timeClass, targetDate, i) && a.value == s[i];
      }
    }
  }

  /** Without the condition on ties, order can matter: two rapid games that end
      at the same second, each with the player on white at a different rating,
      give the rating of whichever is listed first. */
  lemma TiesFollowListOrder()
    ensures var g1 := ChessGame(100, "rapid", Side("kevin_on", 1000), Side("rival", 1200));
            var g2 := ChessGame(100, "rapid", Side("KEVIN_ON", 1100), Side("rival", 1300));
            && FindRatingAtDate([g1, g2], "rapid", 200) == Some(1000)
            && FindRatingAtDate([g2, g1], "rapid", 200) == Some(1100)
  {
    var g1 := ChessGame(100, "rapid", Side("kevin_on", 1000), Side("rival", 1200));
    var g2 := ChessGame(100, "rapid", Side("KEVIN_ON", 1100), Side("rival", 1300));
    assert EqualIgnoringCase(g1.white.username, ChessUsername);
    assert EqualIgnoringCase(g2.white.username, ChessUsername) by {
      assert g2.white.username == ['K', 'E', 'V', 'I', 'N', '_', 'O', 'N'];
      assert ChessUsername == ['k', 'e', 'v', 'i', 'n', '_', 'o', 'n'];
    }
    assert IsPicked([g1, g2], "rapid", 200, 0);
    assert IsPicked([g2, g1], "rapid", 200, 0);
    forall i | IsPicked([g1, g2], "rapid", 200, i) ensures i == 0 {
      PickedIsUnique([g1, g2], "rapid", 200, i, 0);
    }
    forall i | IsPicked([g2, g1], "rapid", 200, i) ensures i == 0 {
      PickedIsUnique([g2, g1], "rapid", 200, i, 0);
    }
  }

  /** Listing the current month's games before the previous month's would find
      the same rating, under the same condition on ties. */
  lemma MonthOrderIrrelevant(prevGames: seq<ChessGame>, currentGames: seq<ChessGame>, timeClass: string, targetDate: int)
    requires forall g, h :: (g in prevGames + currentGames && h in prevGames + currentGames
                             && Qualifies(g, timeClass, targetDate) && Qualifies(h, timeClass, targetDate)
                             && g.endTime == h.endTime) ==> PlayerRating(g) == PlayerRating(h)
    ensures FindRatingAtDate(prevGames + currentGames, timeClass, targetDate)
         == FindRatingAtDate(currentGames + prevGames, timeClass, targetDate)
  {
    assert multiset(prevGames + currentGames) == multiset(currentGames + prevGames);
    FindRatingIgnoresOrder(prevGames + currentGames, currentGames + prevGames, timeClass, targetDate);
  }

  // ---------------------------------------------------------------------------
  // Dates

  /** Month number counted from year 0, so that consecutive months differ by one. */
  function MonthNumber(ym: YearMonth): (n: int) {
    ym.year * 12 + (ym.month - 1)
  }

  /** The month before `ym`, rolling January back to December of the year before. */
  function PrevMonth(ym: YearMonth): (r: YearMonth)
    ensures 1 <= ym.month <= 12 ==> 1 <= r.month <= 12 && MonthNumber(r) == MonthNumber(ym) - 1
  {
    if ym.month == 1 then YearMonth(ym.year - 1, 12) else YearMonth(ym.year, ym.month - 1)
  }

  /** Among valid months, the one `PrevMonth` gives is the only one just before `ym`. */
  lemma PrevMonthIsUnique(ym: YearMonth, other: YearMonth)
    requires 1 <= ym.month <= 12 && 1 <= other.month <= 12
    requires MonthNumber(other) == MonthNumber(ym) - 1
    ensures other == PrevMonth(ym)
  {
  }

  /** The cutoff in unix seconds: thirty days before `nowMs`, rounded down to a
      whole second. */
  function CutoffSeconds(nowMs: int): (r: int)
    ensures r * 1000 <= nowMs - ThirtyDaysMs < r * 1000 + 1000
    ensures r == nowMs / 1000 - 2592000
  {
    (nowMs - ThirtyDaysMs) / 1000
  }

  // ---------------------------------------------------------------------------
  // getChessData

  /** `fetchGamesForMonth`: the month's games, an empty list on a non-2xx status
      or a body without games, and None when the request rejects. */
  function MonthGames(response: MonthResponse): (r: Option<seq<ChessGame>>)
    ensures r.None? <==> response.Threw?
    ensures response.Ok? && response.games.Some? ==> r == response.games
    ensures !response.Threw? && !(response.Ok? && response.games.Some?) ==> r == Some([])
  {
    match response
    case NotOk => Some([])
    case Threw => None
    case Ok(games) => if games.Some? then games else Some([])
  }

  /** The change against the old rating when that rating is truthy; a missing
      old rating and an old rating of 0 are both falsy and give no change. */
  function Change(current: int, oldRating: Option<int>): (r: int)
    ensures r == 0 <==> oldRating.None? || oldRating.value == 0 || oldRating.value == current
    ensures oldRating.Some? && oldRating.value != 0 ==> r + oldRating.value == current
  {
    if oldRating.Some? && oldRating.value != 0 then current - oldRating.value else 0
  }

  /** What one category of the report means, stated through the picked game
      rather than through the filter and sort. */
  ghost predicate DeltaMeets(rating: Option<ChessRating>, games: seq<ChessGame>, timeClass: string,
                             cutoff: int, d: Option<Delta>)
  {
    && (d.None? <==> rating.None? || rating.value.last.None?)
    && (d.Some? ==>
          && d.value.current == rating.value.last.value.rating
          && ((forall g :: g in games ==> !Qualifies(g, timeClass, cutoff)) ==> d.value.change == 0)
          && (forall i :: IsPicked(games, timeClass, cutoff, i) ==>
                d.value.change == if PlayerRating(games[i]) == 0 then 0
                                  else d.value.current - PlayerRating(games[i])))
  }

  /** One category of the report: None unless the stats carry a `last` entry for
      it; otherwise that rating and its change since the look-back game. */
  function CategoryDelta(rating: Option<ChessRating>, games: seq<ChessGame>, timeClass: string, cutoff: int)
    : (r: Option<Delta>)
    ensures DeltaMeets(rating, games, timeClass, cutoff, r)
  {
    if rating.Some? && rating.value.last.Some? then
      var current := rating.value.last.value.rating;
      var oldRating := FindRatingAtDate(games, timeClass, cutoff);
      var d := Delta(current, Change(current, oldRating));
      assert forall i :: IsPicked(games, timeClass, cutoff, i) ==>
               d.change == if PlayerRating(games[i]) == 0 then 0 else current - PlayerRating(games[i]) by {
        forall i | IsPicked(games, timeClass, cutoff, i)
          ensures d.change == if PlayerRating(games[i]) == 0 then 0 else current - PlayerRating(games[i])
        {
          var k :| IsPicked(games, timeClass, cutoff, k) && oldRating.value == PlayerRating(games[k]);
          PickedIsUnique(games, timeClass, cutoff, i, k);
        }
      }
      Some(d)
    else
      None
  }

  /** The games looked at: the previous month's followed by the current month's,
      or None when either request rejected. */
  function AllGames(fetchMonth: YearMonth -> MonthResponse, now: YearMonth): (r: Option<seq<ChessGame>>)
    ensures r.None? <==> fetchMonth(now).Threw? || fetchMonth(PrevMonth(now)).Threw?
    ensures r.Some? ==> r.value == MonthGames(fetchMonth(PrevMonth(now))).value + MonthGames(fetchMonth(now)).value
  {
    var currentGames := MonthGames(fetchMonth(now));
    var prevGames := MonthGames(fetchMonth(PrevMonth(now)));
    if currentGames.None? || prevGames.None? then None
    else Some(prevGames.value + currentGames.value)
  }

  /** `getChessData`. `stats` is None when the stats request failed; `fetchMonth`
      gives the archive response for a month; `nowMs` and `now` are the clock. */
  function GetChessData(stats: Option<ChessStats>, fetchMonth: YearMonth -> MonthResponse,
                        nowMs: int, now: YearMonth): (r: ChessData)
    ensures stats.None? ==> r == NoData
    ensures AllGames(fetchMonth, now).None? ==> r == NoData
    ensures stats.Some? && AllGames(fetchMonth, now).Some? ==>
              && DeltaMeets(stats.value.chessRapid, AllGames(fetchMonth, now).value, "rapid", CutoffSeconds(nowMs), r.rapid)
              && DeltaMeets(stats.value.chessBlitz, AllGames(fetchMonth, now).value, "blitz", CutoffSeconds(nowMs), r.blitz)
  {
    if stats.None? then
      NoData
    else
      var cutoff := CutoffSeconds(nowMs);
      var allGames := AllGames(fetchMonth, now);
      if allGames.None? then
        NoData
      else
        ChessData(CategoryDelta(stats.value.chessRapid, allGames.value, "rapid", cutoff),
                  CategoryDelta(stats.value.chessBlitz, allGames.value, "blitz", cutoff))
  }

  /** A worked case: current rapid 1500; the only rapid game before the cutoff
      ended a day before it, with the player on black at 1450 and an opponent
      on white; the previous month's archive answered with a non-2xx status.
      Rapid shows +50; blitz, with no `last` entry, is not shown. */
  lemma RapidExample(nowMs: int, now: YearMonth)
    ensures var cutoff := CutoffSeconds(nowMs);
            var game := ChessGame(cutoff - 86400, "rapid", Side("MagnusCarlsen", 1520), Side("Kevin_On", 1450));
            var fetchMonth := (ym: YearMonth) => if ym == now then Ok(Some([game])) else NotOk;
            var stats := ChessStats(Some(ChessRating(Some(RatingPoint(1500, 0)))), Some(ChessRating(None)));
            GetChessData(Some(stats), fetchMonth, nowMs, now) == ChessData(Some(Delta(1500, 50)), None)
  {
    var cutoff := CutoffSeconds(nowMs);
    var game := ChessGame(cutoff - 86400, "rapid", Side("MagnusCarlsen", 1520), Side("Kevin_On", 1450));
    var fetchMonth := (ym: YearMonth) => if ym == now then Ok(Some([game])) else NotOk;
    assert fetchMonth(PrevMonth(now)) == NotOk && fetchMonth(now) == Ok(Some([game]));
    assert MonthGames(fetchMonth(PrevMonth(now))) == Some([]);
    assert MonthGames(fetchMonth(now)) == Some([game]);
    assert [] + [game] == [game];
    assert AllGames(fetchMonth, now) == Some([game]);
    assert IsPicked([game], "rapid", cutoff, 0);
    assert !EqualIgnoringCase("MagnusCarlsen", ChessUsername);
  }
}
