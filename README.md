# Chess rating widget: a Dafny model

The site shows the owner's chess.com rapid and blitz ratings together with how
much each moved over the last thirty days. `getChessData` in `lib/chess.ts`
computes this. It reads the player's stats, which give the current rating per
category. It then reads the game archives of the current and the previous
calendar month. For each category it finds the newest game that ended at or
before a cutoff thirty days ago and takes the player's rating from that game.
The result is `{current, change}` per category, or null for a category that
cannot be shown.

`chess.dfy` (module `Chess`) models this as pure functions with lemmas:

- The network calls are inputs. `stats: Option<ChessStats>` is None when the
  stats request failed. `fetchMonth: YearMonth -> MonthResponse` gives the
  archive response for a month, so the model records which months are asked
  for. The response is `NotOk` (a non-2xx status), `Threw` (transport error or
  a body that is not JSON) or `Ok(games)`.
- The clock is an input: `nowMs` in milliseconds, and the current year and
  month as `now`.
- `findRatingAtDate` is modelled step by step. `FilterGames` is the filter and
  `SortNewestFirst` is a stable insertion sort, as JavaScript's `Array.prototype.sort`
  is stable. The head of the sort is taken, and then `PlayerRating` picks the
  side. `IsPicked` states which game is chosen without reference to the sort:
  the game qualifies, no qualifying game ended later, and every qualifying game
  listed before it ended strictly earlier. So of two games with the same end
  time, the one listed first wins.

Two behaviours of `lib/chess.ts` worth spelling out, both modelled as written:

- A non-2xx month response gives `[]`. A transport error or a body that is not
  JSON rejects `Promise.all`, and the outer `catch` returns
  `{rapid: null, blitz: null}`. `AllGames` and `GetChessData` model this.
- The old rating is tested for truthiness, so an old rating of 0 gives a change
  of 0. `Change` and `DeltaMeets` model this.

## Model

| member | source | states |
|---|---|---|
| `Chess.ToLower` | lib/chess.ts:61 | The result has the same length; each ASCII capital is lowered and every other character is unchanged. |
| `Chess.ToLowerEqualsIff` | lib/chess.ts:61 | Lower-casing a name and comparing it with an all-lower-case name is the same as comparing the two names letter by letter, ignoring case. |
| `Chess.PlayerRating` | lib/chess.ts:61-64 | The white rating is returned when the white username equals `kevin_on` ignoring case. In every other case the black rating is returned, whatever the black username is. |
| `Chess.FilterGames` | lib/chess.ts:54-55 | Every game kept is from the input and qualifies: it has the category and ended at or before the cutoff. Every qualifying input game is kept. |
| `Chess.FilterAppend` | lib/chess.ts:54-55 | Filtering a concatenation is the concatenation of the filtered parts, so the kept games stay in input order and with their repeats. |
| `Chess.FilterOne` | lib/chess.ts:54-55 | A single game is kept exactly when it qualifies. |
| `Chess.InsertNewestFirst` | lib/chess.ts:56 | Inserting into a newest-first list keeps it newest first and adds exactly the one game. |
| `Chess.InsertionPointSplits` | lib/chess.ts:56 | Every game before the insertion point ended strictly later than the inserted game, and every game from it on ended no later. |
| `Chess.InsertPosition` | lib/chess.ts:56 | The inserted game lands at the insertion point and the rest of the list is unchanged, so it goes ahead of every game with an equal end time. |
| `Chess.SortNewestFirst` | lib/chess.ts:56 | The result is ordered by descending end time and is a permutation of the input. |
| `Chess.SortHeadIsLatest` | lib/chess.ts:56-60 | The head of the sort is the newest game, and among games with that end time it is the one listed first. |
| `Chess.LatestOfFilteredIsPicked` | lib/chess.ts:54-60 | The newest filtered game is a game of the original list at an index that `IsPicked` holds for. |
| `Chess.PickedIsUnique` | lib/chess.ts:54-60 | At most one index satisfies `IsPicked`, so that description fixes the chosen game. |
| `Chess.SelectGame` | lib/chess.ts:54-60 | No game is selected exactly when no game qualifies. Otherwise the selected game is the one at the picked index. |
| `Chess.FindRatingAtDate` | lib/chess.ts:49-65 | The result is null exactly when no game has the category and ended at or before the target date. Otherwise it is the player's rating in the picked game, the newest qualifying one. |
| `Chess.SelectedEndTimeIgnoresOrder` | lib/chess.ts:54-60 | Reordering the games changes neither whether a game is selected nor the selected game's end time. |
| `Chess.FindRatingIgnoresOrder` | lib/chess.ts:54-64 | If qualifying games with equal end times agree on the player's rating, reordering the games does not change the rating found. |
| `Chess.TiesFollowListOrder` | lib/chess.ts:54-64 | Two qualifying games with the same end time and different player ratings give the rating of whichever is listed first, so the condition on ties in the order lemmas is needed. |
| `Chess.MonthOrderIrrelevant` | lib/chess.ts:85 | Under the same condition on ties, listing the current month's games first would find the same rating as previous-month-first. |
| `Chess.PrevMonth` | lib/chess.ts:76-79 | For a month in 1..12 the result is also in 1..12 and is exactly one month earlier, with January rolling back to December of the previous year. |
| `Chess.PrevMonthIsUnique` | lib/chess.ts:78-79 | Any valid month that is one month before the current one is the month `PrevMonth` returns. |
| `Chess.CutoffSeconds` | lib/chess.ts:72-73 | The cutoff is thirty days before `nowMs`, converted to seconds and rounded down. It equals `nowMs` in whole seconds, rounded down, minus 2,592,000. |
| `Chess.MonthGames` | lib/chess.ts:35-47 | A month fetch rejects only on a thrown error. A non-2xx status, or a body without `games`, gives the empty list. Otherwise it gives the archive's games. |
| `Chess.Change` | lib/chess.ts:95 | The change is `current - old` when the old rating is present and non-zero, and 0 otherwise. It is zero exactly when the old rating is missing, is 0, or equals the current rating. |
| `Chess.CategoryDelta` | lib/chess.ts:90-97 | A category is null exactly when the stats have no `last` entry for it. Otherwise `current` is `last.rating`. The change is 0 when no game qualifies, and is computed against the picked game's rating when one does (0 if that rating is 0). |
| `Chess.AllGames` | lib/chess.ts:81-85 | The candidate games are the previous month's followed by the current month's. The result is missing exactly when either month's request rejected. |
| `Chess.GetChessData` | lib/chess.ts:67-113 | A failed stats fetch, or a rejected month fetch, gives `{rapid: null, blitz: null}`. Otherwise rapid and blitz each meet the per-category description above, over the combined games and the cutoff. |
| `Chess.RapidExample` | lib/chess.ts:87-108 | A worked case, for every clock reading and current month: current rapid rating 1500, and one rapid game a day before the cutoff with the player on black at 1450. The previous month's archive failed with a non-2xx status. The result is rapid `+50` and blitz null. |

## Left out

- The HTTP requests, JSON decoding, URL construction and the one-hour `revalidate` caching in `fetchStats` and `fetchGamesForMonth` (lib/chess.ts:27-47) are not modelled. Their outcomes are the inputs `stats` and `fetchMonth`.
- The concurrency of `Promise.all` is not modelled. Only the outcome of the two month requests and the order in which their games are concatenated matter.
- `new Date()`, `getMonth`, `getFullYear` and time zones are not modelled. The current time in milliseconds and the current year and month are inputs. The model does not require the month to be in 1..12, but the lemmas about months assume it.
- The `console.error` logging in the `catch` block is not modelled.
- The `best` and `record` fields of a stats category, and the `date` of `last`, are carried or dropped but never read. The code does not read them either.
- Malformed JSON is not modelled: the model's datatypes are always well formed. Some malformed input throws inside the `try` and gives all-null, such as a `null` stats body or a picked game without `white`. Other malformed games are only passed over, such as a game without `time_class`.
- Ratings and times are unbounded integers. JavaScript numbers (doubles, `NaN`, dates outside the `Date` range) are not modelled. For integer millisecond times within the `Date` range, `Math.floor` of the division is exact, so it matches Dafny's `/` by 1000.
- ToLower: lower-cases only the ASCII letters `A`-`Z`. JavaScript's `toLowerCase` follows the full Unicode case mapping, so a username such as one containing the Kelvin sign U+212A could compare equal in the code but not in the model.
- PlayerRating: the case-insensitive equality it is stated with covers ASCII letters only, for the same reason as ToLower.
- SortNewestFirst: its contract says ordered and permutation. Stability is stated only for the head of the result (SortHeadIsLatest), which is the only element the code reads.
- `app/blog/page.tsx`, `app/blog/[slug]/page.tsx`, `app/components/CopyEmail.tsx`, `app/layout.tsx`, `mdx-components.tsx` and `lib/types.ts` are not part of this model. They hold page rendering, clipboard UI, framework configuration and type declarations. Formatting the change for display (`+5`, `-3`, a neutral symbol for 0) is not done in `lib/chess.ts` and is not part of this model either.
