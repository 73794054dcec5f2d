# GoldenBrain trivia game: a Dafny model of its scoring core

GoldenBrain is a console trivia game. A player logs in by full name and picks
one of three categories (Computer Science, Cars, Animals). The player then
answers every question of that category's bank once, in random order. Each
answer is worth 2, 1 or 0 points, and it only counts once the player confirms
it. The game keeps two slots per player and category, `[current, best]`, in a
process-wide dictionary. The leaderboard lists the top players of each
category with competition ranks and star markers.

This project models that logic, with every console call replaced by an input:

- `QuestionBank` (`questions.dfy`): categories, answers reduced to
  `(number, score)`, the three ten-question banks as score tables, the score
  lookup, the answer-key lookup, and the well-formedness of every bank.
- `Drawing` (`drawing.dfy`): the draw of a question id that has not been asked
  yet, and the fact that a completed session asks each id exactly once.
- `Registry` (`registry.dfy`): the login name check, the record a first login
  creates, and the three ways a session changes a `[current, best]` slot
  (add points, fold into best, reset on retry).
- `Session` (`session.dfy`): the effect of a sequence of played rounds on the
  registry, with the best-score and abort lemmas.
- `Game` (`game.dfy`): the class `GoldenBrain`, which holds `players`,
  `questions` and `currentUser`. Its methods are `LogIn`, `Logout`,
  `IsAnswered`, one question screen, one session, and `PlayGame` with its
  retries written as loop iterations.
- `Leaderboard` (`leaderboard.dfy`): the ranking loop of `DisplayRankScores`
  and the per-player category listing of `DisplayFullScores`.

Keypresses, Y/N confirmations, menu choices and typed lines are sequences
consumed in order. The random draw is a choice of any id not asked yet. The
orders that `OrderByDescending` produces are inputs too. They are described
by the predicates `IsRankingOrder` and `IsCategoryOrder`, and lemmas show such
an order always exists.

The model follows the code as written:

- Login accepts any line that is not blank and contains a space, so `"Ada "`
  is accepted, although the prompt at `GoldenBrains/GoldenBrain.cs:374` asks
  for a first and a last name. Two non-empty tokens are not required.
- The leaderboard uses standard competition ranking ("1,1,3"): a rank is 1
  plus the number of listed players with a strictly higher best.
- The top-N count is clamped to the number of registered players, including
  players with a zero best, and the notice at `GoldenBrains/GoldenBrain.cs:214`
  counts them too. The clamped value is kept for the later categories.
- The score is written straight into the player's current-session slot when
  an answer is confirmed.
- That slot is reset to 0 only when the player accepts a retry. An abort or a
  declined retry leaves the points there, and they carry into the next
  session of that category. `Session.LeftoverPointsExceedMaximum` shows a best
  of 22 against the printed maximum of 20.

The `int[2]` slot arrays are modelled as the value `Record(current, best)`.
Each array is created fresh for one player and category at login and never
shared, so no aliasing is lost.

## Model

| member | source | states |
|---|---|---|
| `QuestionBank.ScoreOf` | GoldenBrains/GoldenBrain.cs:416 | the score of the answer at 1-based position `question` is in 0..2, and that answer carries that number |
| `QuestionBank.FirstWithScore` | GoldenBrains/GoldenBrain.cs:604 | `FirstOrDefault`: the result is the first answer with the given score, and there is none exactly when no answer has that score |
| `QuestionBank.TopAnswerIsUniquePerfect` | GoldenBrains/GoldenBrain.cs:602-608 | for a well-formed question the answer-key lookup finds an answer worth 2; it is the only one worth 2 and no answer is worth more |
| `QuestionBank.TotalScoreBounds` | GoldenBrains/GoldenBrain.cs:584-585 | n committed answers in a well-formed bank are worth between 0 and 2n points |
| `QuestionBank.ScoredWellFormed` | GoldenBrains/GoldenBrain.cs:1044-1049 | four answers numbered 1..4 whose scores lie in 0..2 with exactly one 2 form a well-formed question |
| `QuestionBank.PointsValid` | GoldenBrains/GoldenBrain.cs:626-1035 | every question of all three banks has scores in 0..2 and exactly one answer worth 2 |
| `QuestionBank.BanksWellFormed` | GoldenBrains/GoldenBrain.cs:626-1035 | every bank has ten questions with ids 1..10, each with four answers numbered 1..4 in order, scored 0..2, exactly one worth 2 |
| `Drawing.MissingId` | GoldenBrains/GoldenBrain.cs:496-499 | while fewer than n distinct ids in 1..n have been drawn, some id in 1..n is still unasked, so the rejection loop has something to find |
| `Drawing.DrawOrderCoversAll` | GoldenBrains/GoldenBrain.cs:492-501 | n distinct draws from 1..n contain every id in 1..n: the draw order is a permutation of 1..n |
| `Drawing.Draw` | GoldenBrains/GoldenBrain.cs:496-501 | the drawn id is in 1..n and not asked before, so the extended list stays duplicate-free and in range |
| `Registry.ValidNameMeaning` | GoldenBrains/GoldenBrain.cs:370 | a line is accepted iff it exists, contains a space, and contains a character that is not white space |
| `Registry.ValidNameExamples` | GoldenBrains/GoldenBrain.cs:370 | "Ada Lovelace" and "Ada " are accepted; "Ada", blanks, the empty line and no line are rejected |
| `Registry.FirstValid` | GoldenBrains/GoldenBrain.cs:368-378 | the index the login loop stops at: a valid line, with every earlier line invalid |
| `Registry.ReadName` | GoldenBrains/GoldenBrain.cs:368-378 | the re-prompt loop returns the first valid line of the input |
| `Registry.NewScores` | GoldenBrains/GoldenBrain.cs:382-387 | a first login's record has exactly the three categories, each `[0, 0]` |
| `Registry.Register` | GoldenBrains/GoldenBrain.cs:380-395 | a new name gains the zeroed record and nobody else changes; a known name leaves the registry unchanged; the name is registered afterwards |
| `Registry.RegisterIdempotent` | GoldenBrains/GoldenBrain.cs:380-395 | logging in twice with one name leaves the registry as logging in once |
| `Registry.AddToSession` | GoldenBrains/GoldenBrain.cs:416 | the chosen player's current slot for the category grows by the points; its best slot and every other player and category are unchanged |
| `Registry.AddToSessionTwice` | GoldenBrains/GoldenBrain.cs:416 | two commits add the sum of their points |
| `Registry.FoldBest` | GoldenBrains/GoldenBrain.cs:612-613 | the best slot becomes the larger of best and current; nothing else changes |
| `Registry.ResetSession` | GoldenBrains/GoldenBrain.cs:619 | the current slot becomes 0, the best slot is kept, nothing else changes |
| `Session.ApplyRound` | GoldenBrains/GoldenBrain.cs:503-620 | a round changes only the user's record in the round's category |
| `Session.ApplyRounds` | GoldenBrains/GoldenBrain.cs:470-624 | a sequence of rounds changes no other player and keeps the set of registered names |
| `Session.IncompleteRoundKeepsBest` | GoldenBrains/GoldenBrain.cs:562-570 | an aborted round leaves every best slot unchanged and keeps its committed points in the current slot |
| `Session.CompletedRoundBest` | GoldenBrains/GoldenBrain.cs:612-620 | after a completed round best is max(old best, session total); current is 0 after a retry and the session total otherwise |
| `Session.BestNeverDecreases` | GoldenBrains/GoldenBrain.cs:612-613 | no sequence of rounds lowers any best slot |
| `Session.FreshRoundWithinMaximum` | GoldenBrains/GoldenBrain.cs:585 | a round that starts from a zero current slot and gains at most 2n points leaves best at most max(old best, 2n) |
| `Session.LeftoverPointsExceedMaximum` | GoldenBrains/GoldenBrain.cs:566-585 | 2 points kept from an aborted round plus a perfect 20 give a best of 22, above the printed maximum of 20 |
| `Game.GoldenBrain.constructor` | GoldenBrains/GoldenBrain.cs:5-13 | the game starts with no players, no bank and nobody logged in |
| `Game.GoldenBrain.LogIn` | GoldenBrains/GoldenBrain.cs:358-396 | with a user logged in nothing changes; otherwise the first valid line becomes the current user and the registry becomes `Register` of it |
| `Game.GoldenBrain.Logout` | GoldenBrains/GoldenBrain.cs:398-407 | nobody is logged in afterwards and the registry is unchanged |
| `Game.GoldenBrain.IsAnswered` | GoldenBrains/GoldenBrain.cs:409-421 | returns the confirmation; if confirmed, adds the chosen answer's score to the current slot, else changes nothing |
| `Game.FirstConfirmed` | GoldenBrains/GoldenBrain.cs:503-572 | the move a question screen stops at: the first confirmed move at or after the start, every move before it declined, or the end of the input if there is none |
| `Game.DeclinedMoveIgnored` | GoldenBrains/GoldenBrain.cs:541-572 | a move whose confirmation is declined leaves the session as if it had not been made |
| `Game.ConfirmedPicksComplete` | GoldenBrains/GoldenBrain.cs:492-574 | n confirmed answers in a row complete the session, commit exactly those answers in order, and stop right after them |
| `Game.ConfirmedQuitAborts` | GoldenBrains/GoldenBrain.cs:562-569 | confirmed answers followed by a confirmed q abort the session right after the q, with only the earlier answers committed |
| `Game.ScreenStep` | GoldenBrains/GoldenBrain.cs:503-574 | one screen of a session: a committed answer joins the earlier ones and the rest of the session reads on after it; an abort or running out of moves ends the session there |
| `Game.GoldenBrain.AskQuestion` | GoldenBrains/GoldenBrain.cs:503-574 | the question is repeated until the first confirmed move; a confirmed answer is committed, a confirmed q aborts with nothing committed |
| `Game.GoldenBrain.PlayQuestion` | GoldenBrains/GoldenBrain.cs:492-574 | one pass of the `for` body: a fresh id in range is drawn and the screen is left at its first confirmed move (`ScreenRead`): a confirmed answer is committed, a confirmed q aborts, and with no confirmed move the input ran out |
| `Game.GoldenBrain.SessionScreen` | GoldenBrains/GoldenBrain.cs:492-574 | one pass with its bookkeeping: the screen is left as `ScreenRead` says; a committed answer is paired with the drawn id and its points join the current slot; an abort or running out of moves records nothing |
| `Game.GoldenBrain.PlaySession` | GoldenBrains/GoldenBrain.cs:489-575 | how the session ends, the answers committed (paired in order with the drawn ids) and the next unread move are those `Screens` makes of the moves; a completed session asks a permutation of the bank's ids; the current slot gains the committed total, between 0 and 2n |
| `Game.GoldenBrain.LoadQuestions` | GoldenBrains/GoldenBrain.cs:476-487 | the chosen bank is loaded; registry and user are unchanged |
| `Game.GoldenBrain.EndSession` | GoldenBrains/GoldenBrain.cs:612-620 | the best slot is folded, and the current slot is reset only on a retry |
| `Game.GoldenBrain.PlayRound` | GoldenBrains/GoldenBrain.cs:476-623 | one category's round: its bank is loaded; how it ends, the points it gains and where the moves stand after it are what `Screens` makes of the moves (`Follows`); the registry changes as `ApplyRound` of the round played |
| `Game.GoldenBrain.PlayGame` | GoldenBrains/GoldenBrain.cs:470-624 | rounds follow the menu choices, each one what its screens make of the moves from where the previous round stopped (`MovesAfter`); only a completed and retried round leads to another; the registry changes as `ApplyRounds` of the rounds |
| `Game.CommitAnswer` | GoldenBrains/GoldenBrain.cs:416 | after each commit the current slot equals its starting value plus the total of the answers committed so far |
| `Game.ProgressDone` | GoldenBrains/GoldenBrain.cs:470-624 | when the play loop stops, with each round read from the moves where the previous one stopped, the rounds played are exactly what the menu, the moves and the retry answers dictate |
| `Leaderboard.RankingOrderExists` | GoldenBrains/GoldenBrain.cs:204-208 | every registry has an arrangement of all players by best, highest first |
| `Leaderboard.RanksMeaning` | GoldenBrains/GoldenBrain.cs:219-243 | each score's rank is 1 plus the number of earlier scores strictly higher |
| `Leaderboard.RanksOfNonIncreasing` | GoldenBrains/GoldenBrain.cs:228-229 | in non-increasing scores the first rank is 1, a tie keeps the previous rank, and a lower score takes its 1-based position |
| `Leaderboard.RanksExample` | GoldenBrains/GoldenBrain.cs:228-238 | scores [10,10,8,8,5] get ranks [1,1,3,3,5] and markers "*","*","***","***","" |
| `Leaderboard.Marker` | GoldenBrains/GoldenBrain.cs:231-237 | ranks 1, 2, 3 and only they get the gold, silver and bronze placements |
| `Leaderboard.MarkerText` | GoldenBrains/GoldenBrain.cs:231-237 | the three placements print as one, two and three stars; no placement prints nothing |
| `Leaderboard.RankingsMeaning` | GoldenBrains/GoldenBrain.cs:225-241 | line j of a board names the j-th listed player with rank 1 plus the number of earlier listed players with a strictly higher best, and the matching marker |
| `Leaderboard.RankingsRanks` | GoldenBrains/GoldenBrain.cs:225-241 | a board's ranks are the competition ranks of its listed bests |
| `Leaderboard.BoardRanks` | GoldenBrains/GoldenBrain.cs:226-241 | on a board the first player is ranked 1 with gold, a tie shares the rank above, and a lower best is ranked by position |
| `Leaderboard.RankCategory` | GoldenBrains/GoldenBrain.cs:219-243 | the loop lists exactly the first `count` sorted players with a non-zero best, in non-increasing best order, with competition ranks; a negative count lists nobody |
| `Leaderboard.TopCount` | GoldenBrains/GoldenBrain.cs:210-212 | the walked count never exceeds the number of players and equals `count` when it is already in range |
| `Leaderboard.RankScores` | GoldenBrains/GoldenBrain.cs:202-246 | one board per category in declaration order; the clamp applies on the first category, persists for the later ones, and raises the notice only once |
| `Leaderboard.PlayerScores` | GoldenBrains/GoldenBrain.cs:274-281 | each category is listed with its best, or as not played when the best is 0 |
| `Leaderboard.PlayedCategoriesFirst` | GoldenBrains/GoldenBrain.cs:270-281 | a player's listing holds every category; played ones come first in non-increasing best order |
| `Leaderboard.CategoryOrderExists` | GoldenBrains/GoldenBrain.cs:270-272 | every player's record has an arrangement of its categories by best, highest first |

## Left out

- The main loop `Game`, `DisplayMainMenu`, `DisplayLeaderboardMenu`, `DisplayRules`, `DisplayPlayers` and `GoBack` only print text and dispatch on keys. The operations they call are modelled one by one.
- `GetConfirmation` is a boolean input, and `GetCount` is an `int` parameter. `CategoryMenu` is an optional category taken from the menu input, where no category stands for q.
- Re-prompting on keys outside the accepted set is not modelled. The question screen's moves are already-valid keys 1..4 or q (`ValidMoves`).
- `System.Random` is not modelled. A draw may pick any id not asked yet. Whether the do/while rejection loop terminates is not modelled: it ends only with probability 1.
- Game.GoldenBrain.LogIn: requires the input to hold a valid line when nobody is logged in. The source would otherwise prompt forever.
- Game.GoldenBrain.PlaySession: when the moves run out on a question screen, the round ends as `Stalled`. The source would block waiting for a key instead.
- Game.GoldenBrain.PlayGame: when the menu input runs out the loop stops, and a missing retry answer counts as no. The source would block on `ReadKey` in both cases.
- Question and answer texts, and every `Console` message, are not modelled.
- The `topPlayer` lookup and the "Congratulations" message at the end of a session are display only.
- The order of tied players after `OrderByDescending`, and the enumeration order of the `Players` dictionary, are not fixed. `DisplayFullScores` is modelled per player. The iteration over all players is display only.
- Registry.AddToSession: does not model 32-bit wrap-around of the `+=` on the current slot. Integers are unbounded, and leftover points can only exceed `int.MaxValue` after hundreds of millions of rounds.
