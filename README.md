# Puzzle game: a Dafny model of the game logic in `script.js`

The game is a browser jigsaw puzzle. A player uploads an image and picks a piece count. The
game then cuts the image into a grid of jigsaw pieces and times how long the player takes
to solve it. Each puzzle has its own leaderboard of best times per player name. Puzzles
are saved in the browser's local storage. A puzzle can be public, private or link-only, and
it can be opened from a deep link `#play?pid=…&t=…`.

This project models the logic behind that, one module per concern:

| file | module | what it models |
|---|---|---|
| `clock.dfy` | `Clock` | `formatTime`: milliseconds to `MM:SS` |
| `html.dfy` | `Html` | `escapeHtml`: the five chained `replaceAll` passes |
| `names.dfy` | `Names` | `String.prototype.trim` and the `trim() \|\| fallback` default names |
| `grid.dfy` | `Grid` | `bestGrid`: the divisor pair closest to the image's aspect ratio |
| `board.dfy` | `Board` | board width and height, grid and piece size when a puzzle is built |
| `timer.dfy` | `Timing` | the timer (`class Timer`): stop, reset, start, the interval tick, the start-on-first-interaction hook, the solved callback |
| `leaderboard.dfy` | `Leaderboard` | `lbKey`, the best-of merge of the save-score button, the ranking `renderLeaderboard` shows |
| `puzzles.dfy` | `Puzzles` | `getPuzzleById`, `upsertPuzzle`, the delete filter, the deep-link token check |
| `store.dfy` | `Storage` | the stored state (`class Store`) and the handlers that change it: create, delete, open from a link, save a score |

`bestGrid` scores a pair by `|ln((cols/rows)/aspect)|`. Since `ln` is increasing, ranking by
that score is the same as ranking by `max(x, 1/x)` with `x = (cols/rows)/aspect`. For an
image `w` by `h` pixels, this is the exact fraction `max(cols·h, rows·w) / min(cols·h, rows·w)`.
The model compares these fractions by cross-multiplication, so it needs no logarithms or
floating point. An image of zero height and positive width has an infinite aspect ratio.
Every pair then scores infinity and the first pair, `1 × n`, is kept, as in the source.

Some behaviours of the code worth knowing, which a reader might expect otherwise:

- Player names on a leaderboard are compared exactly, so "Ann" and "ANN" are two players.
- A link-only puzzle also opens from a link with no token or an empty token. Only a token
  that is present, non-empty and wrong is refused (`Puzzles.LinkOnlyWithoutToken`).
- Among pairs with exactly equal scores, `bestGrid` keeps the first one found, the one with the
  fewest columns. Squarer pairs get no preference.
- Leaderboard rows with equal times stay in the order `Object.entries` lists them. The
  entries carry no update time to order them by.

## Model

| member | source | states |
|---|---|---|
| Clock.Seconds | script.js:55 | the whole seconds in `ms`: 0 for a negative time, otherwise `s·1000 ≤ ms < s·1000 + 1000` |
| Clock.DecimalString | script.js:56-57 | `String(n)`: digits only, no leading zero, and their value is `n` |
| Clock.PadStart | script.js:56-57 | `padStart(width, "0")`: at least `width` long, ends with the input, only zeros in front |
| Clock.FormatTime | script.js:54-59 | `formatTime(ms)` is `MM:SS`: digits, a colon, two seconds digits below 60, and `MM·60 + SS` is the number of whole seconds; the minutes are exactly two digits below 100 minutes and have no leading zero beyond that |
| Clock.FormatTimeInjective | script.js:54-59 | two times give the same text exactly when they have the same number of whole seconds |
| Clock.FormatTimeZero | script.js:54-59 | `formatTime(0)` is `00:00` |
| Html.ReplaceAll | script.js:160 | one `replaceAll(c, rep)`: no `c` is left when `rep` has none, and text without `c` is unchanged |
| Html.Escaped | script.js:158-165 | the reference single-pass escape leaves no raw `<`, `>`, `"` or `'` |
| Html.EscapeHtml | script.js:158-165 | `escapeHtml(s)`, the five chained passes, equals the single-pass reference escape `Escaped(s)` |
| Html.ChainIsSinglePass | script.js:158-165 | the five chained passes, `&` first, equal escaping each character exactly once: no entity made by a later pass is escaped again |
| Html.EscapedAmpersands | script.js:158-165 | every `&` in escaped text starts one of the five entities |
| Html.UnescapeEscaped | script.js:158-165 | decoding the entities of escaped text restores the input |
| Html.EscapeHtmlSafe | script.js:158-165 | `escapeHtml` output has no raw `<`, `>`, `"`, `'`, every `&` starts an entity, and decoding restores the input |
| Names.LeadingSpaces | script.js:382 | the length of the whitespace run at the start of a string |
| Names.TrailingSpaces | script.js:382 | the length of the whitespace run at the end of a string |
| Names.Trim | script.js:382 | `trim()`: a slice of the input with only whitespace cut at both ends, whose own ends are not whitespace; empty exactly when the input is all whitespace |
| Names.NameOr | script.js:589 | `trim() \|\| fallback`: the fallback for an all-whitespace entry, else the trimmed, non-empty name |
| Grid.Target | script.js:203 | `aspect > 0 ? aspect : 1` for `aspect = w/h`: `w/h` for a real image, 1 for aspect 0 or NaN, infinity for height 0 |
| Grid.Score | script.js:211-212 | the deviation fraction is at least 1, and equals 1 exactly when the pair has the target's shape |
| Grid.BestGrid | script.js:199-223 | a result exactly when the count is at least 1: a divisor pair with `cols·rows = n`, no divisor pair scoring lower, and every pair with fewer columns scoring higher |
| Grid.BestGridUnique | script.js:207-214 | the best grid is unique, so the result is fully determined by the count and the aspect |
| Grid.ExactAspectWins | script.js:207-214 | a divisor pair whose shape equals the aspect ratio is the one chosen |
| Grid.FewerColumnsMoreRows | script.js:209 | among divisor pairs, fewer columns means more rows |
| Grid.SquareSixtyFour | script.js:199-223 | 64 pieces on a square image give 8 × 8 |
| Grid.WideTen | script.js:199-223 | 10 pieces on a 2:1 image give 5 columns by 2 rows |
| Grid.SquareTwelveTie | script.js:212 | in exact arithmetic 3 × 4 and 4 × 3 tie for 12 pieces on a square image, and the strict `<` keeps the first found, 3 × 4 (the source's rounded logarithms decide otherwise; see Left out) |
| Board.Clamp | script.js:285-286 | `Math.max(lo, Math.min(hi, v))`: within `lo..hi` when `lo ≤ hi`, `v` itself when in range, else the nearer bound: `lo` below the range (or when `hi < lo`), `hi` above it |
| Board.BoardWidth | script.js:285 | the board width is within 720..980: 860 for a zero client width, the client width within range, else the nearer bound |
| Board.BoardHeight | script.js:286 | the board height is within 520..720: 640 for a zero client height, the client height within range, else the nearer bound |
| Board.PieceSize | script.js:294 | the largest whole piece size for which the grid fits the board, and at least 1 when the grid is no larger than the board |
| Board.PlanBoard | script.js:284-294 | board size, best grid for the image, and the largest piece size that fits, for every count of at least 1 |
| Timing.Timer.constructor | script.js:30-33 | the timer starts at zero, idle, not armed |
| Timing.Timer.Stop | script.js:235-239 | the interval is cleared and the timer stops; time, display and arming are kept |
| Timing.Timer.Reset | script.js:241-247 | stopped, zero time, armed, and the display shows the zero time |
| Timing.Timer.Start | script.js:249-258 | nothing while running; otherwise running, disarmed, measuring from `now - ms` so the time resumes where it stopped |
| Timing.Timer.Tick | script.js:254-257 | with a live interval the time becomes `now - start`, grows by the clock's advance, never goes back while the clock does not, and the display shows it; with no interval nothing changes |
| Timing.Timer.ArmFirstInteraction | script.js:260-275 | one more first-interaction listener is registered; nothing else changes |
| Timing.Timer.FirstInteraction | script.js:264-269 | all listeners remove themselves; the timer starts from the current time exactly when a listener was registered and the timer was armed |
| Timing.Timer.Restart | script.js:559-566 | the shuffle button: reset and arm one listener |
| Timing.Timer.Finish | script.js:333-338 | the solved callback stops the timer, keeps the time, arming, display and listeners, and the win dialog shows the same text as the timer display |
| Leaderboard.LbKey | script.js:123-125 | the key is the prefix `pg_leaderboard_v1_` followed by the puzzle id |
| Leaderboard.LbKeyInjective | script.js:123-125 | two puzzles share a leaderboard key exactly when their ids are equal |
| Leaderboard.Merged | script.js:592-597 | saving adds the name, keeps the smaller of the old and new time, leaves other names alone, and changes the board exactly when the time strictly improves |
| Leaderboard.MergedCommutes | script.js:592-597 | saving two results in either order gives the same board |
| Leaderboard.MergedIdempotent | script.js:592-597 | saving the same result twice is the same as saving it once |
| Leaderboard.InheritedNameNeverSaved | script.js:592-597 | as written, a score for the name "toString" is never saved, while the best-of merge saves it |
| Leaderboard.MergedAsWritten | script.js:593-597 | the lookup as written either writes `ms` for the name or leaves the board alone; when it writes, it writes what the best-of merge would; it never writes an inherited name that has no entry |
| Leaderboard.MergedAsWrittenElsewhere | script.js:592-597 | for every name not inherited from `Object.prototype`, the code as written and the best-of merge agree |
| Leaderboard.Rows | script.js:136-137 | one row per enumerated key, holding that key's time |
| Leaderboard.Insert | script.js:138 | inserting into a sorted list keeps it sorted and adds exactly that row |
| Leaderboard.SortByTime | script.js:138 | `sort((a, b) => a.ms - b.ms)`: the same rows, as a multiset, in ascending time order |
| Leaderboard.SortStable | script.js:138 | the sort keeps, for each time, the rows with that time in their original order |
| Leaderboard.Top | script.js:139 | `slice(0, 50)`: the first `min(n, 50)` rows, sorted when the input is |
| Leaderboard.Ranking | script.js:136-139 | the rows shown are in ascending time order, at most 50, and no more than the entries |
| Leaderboard.RankingProperties | script.js:132-139 | the leaderboard shows `min(players, 50)` rows, fastest first, each a stored entry, no player twice (the rows are a sub-multiset of the entries), and no player left out is faster than one shown |
| Puzzles.FindIndex | script.js:108 | `findIndex`: the first index with the id, or -1 when none has it |
| Puzzles.FindIndexIsFirst | script.js:108 | the first index holding the id is the result |
| Puzzles.GetById | script.js:102-104 | none exactly when no puzzle has the id; otherwise the first puzzle with it |
| Puzzles.Upserted | script.js:106-112 | the first puzzle with the id is replaced in place and the rest kept, or the puzzle goes in front |
| Puzzles.UpsertThenGet | script.js:106-112 | after an upsert, looking up its id gives the upserted puzzle |
| Puzzles.UpsertKeepsOthers | script.js:106-112 | an upsert does not change the lookup of any other id |
| Puzzles.Without | script.js:484 | the filter keeps exactly the puzzles with another id and changes nothing when no puzzle has the id |
| Puzzles.WithoutConcat | script.js:484 | the filter keeps the survivors in order |
| Puzzles.WithoutRemoves | script.js:484 | after a delete, the id is not found |
| Puzzles.WithoutKeepsOthers | script.js:484 | a delete does not change the lookup of any other id |
| Puzzles.DeepLink | script.js:621-645 | a link is ignored exactly when it has no id, gives not-found exactly for an unknown id, is refused exactly for a link-only puzzle with a wrong non-empty token, and otherwise opens the puzzle |
| Puzzles.TokenRefused | script.js:630 | a public or private puzzle, the puzzle's own token, and a missing or empty token are never refused |
| Puzzles.ShareLinkOpens | script.js:114-118 | the link the share button builds opens its puzzle |
| Puzzles.LinkOnlyWithoutToken | script.js:630 | a link-only puzzle also opens with no token or an empty one |
| Storage.Store.constructor | script.js:15-20 | storage starts empty |
| Storage.Store.ScoresOf | script.js:126-128 | `readLeaderboard(puzzleId)`: the board stored under `lbKey(puzzleId)`, or the empty board when nothing is stored there |
| Storage.Store.Upsert | script.js:106-112 | the stored list becomes the upserted list and the puzzle is found under its id |
| Storage.Store.Delete | script.js:481-488 | the stored list becomes the filtered list and the id is no longer found |
| Storage.Store.CreatePuzzle | script.js:381-404 | nothing changes without an image; otherwise the puzzle, named "Untitled" when the name is blank, is upserted and becomes the last puzzle |
| Storage.Store.OpenDeepLink | script.js:621-636 | the outcome of the link check; an opened puzzle becomes the last puzzle |
| Storage.Store.SaveScore | script.js:586-601 | nothing without a current puzzle; otherwise the trimmed name or "Player" is remembered, the board is written exactly when the time improves, the board becomes the best-of merge (see Left out for the inherited names where the code as written differs), and no other puzzle's board changes |

## Left out

- Rendering is not modelled: the headbreaker and Konva canvas, piece shapes, snapping,
  shuffling and solved detection. The model starts from the "solved" callback (`Timing.Timer.Finish`).
- DOM and UI work is not modelled: routes, modals, previews, the puzzle list markup, alerts
  and clipboard writes.
- `localStorage`, `JSON.parse`/`JSON.stringify` and `FileReader` are replaced by the fields of
  `Storage.Store`. Corrupt stored JSON falling back to defaults is not modelled.
- The uid randomness (`Math.random`) and `Date.now()` are parameters: puzzle ids, tokens,
  creation times and the clock readings given to `Timing.Timer.Start` and `Timing.Timer.Tick`.
- The 200 ms interval period and the 250 ms delay before the win dialog are left out. The
  model lets a tick happen at any clock reading.
- Grid.BestGrid: the fallback grid `round(sqrt(n·aspect))` is not computed. The model returns
  `None` there. The loop reaches that branch only for a count below 1.
- Grid.BestGrid: the comparison is on exact fractions, not on the floating-point logarithms.
  Mirror-image pairs tie exactly on a square image, and rounding then decides which one the
  source keeps. With correctly rounded doubles, `4/3` rounds down, so
  `|ln(1.3333333333333333)| = 0.28768207245178085` is below `|ln 0.75| = 0.2876820724517809`.
  The source therefore keeps 4 × 3 for 12 pieces and 8 × 6 for 48 pieces. By the same kind
  of rounding it keeps 3 × 2 for 6, 6 × 4 for 24 and 15 × 10 for 150, but 4 × 5 for 20 and
  5 × 8 for 40. The model always keeps the pair with fewer columns (`Grid.SquareTwelveTie`).
- Storage.Store.SaveScore: it applies the best-of merge `Leaderboard.Merged` (the corrected
  behaviour under "## Findings"), not the lookup as written. The two differ only for a name
  inherited from `Object.prototype` that has no entry on the board: the code as written never
  saves it. `Leaderboard.MergedAsWrittenElsewhere` proves the two agree for every other name.
- The border, proximity and stroke sizes computed from the piece size (the 0.12, 0.22 and
  0.03 factors) are not modelled. They only style the canvas.
- Board sizes are whole pixels. Fractional client sizes are not modelled.
- Building the share link is not modelled: `puzzleShareLink`, `location` and `encodeURIComponent`.
  Parsing the address is not modelled either: `parsePlayParams` and `URLSearchParams`. The
  deep-link check starts from the `pid` and `t` values.
- The model assumes the page shows `00:00` at load (the `Timing.Timer` constructor's `Display()`);
  the page markup that shows it is not part of this model.
- The allowed piece counts of the page's selector are not part of this model. The model
  covers every count.
- Leaderboard.Ranking: the order in which `Object.entries` lists the names is a parameter
  (`Enumerates`), so equal times keep whatever order it gives.
- Rendering the leaderboard and puzzle list markup through `escapeHtml` is not modelled;
  `escapeHtml` itself is.

## Findings

| source | as written | input that shows it | evidently intended | confidence | as-written member | corrected member |
|---|---|---|---|---|---|---|
| script.js:592-597 | `lb[name]` on a plain object finds members inherited from `Object.prototype`. So `prev == null` is false, `timerMs < prev` compares with NaN and is false, and no score is ever saved | player name `toString` (also `constructor`, `valueOf`, `hasOwnProperty`, …) on a leaderboard without that entry | a name with no own entry gets its first score saved | high, not executed | Leaderboard.InheritedNameNeverSaved | Leaderboard.Merged |
