# Trivia cog of the KawiBot/Mantis chat bot, modelled in Dafny

This project models the bookkeeping of the bot's trivia cog
(`cogs/trivia.py`), separated from its Discord and HTTP plumbing:

- **Request validation and URL** (`request.dfy`, module `TriviaRequest`):
  the case-insensitive category table (names to Open Trivia Database ids,
  with `"any"` meaning no category), the difficulty whitelist, and the
  query URL. The guards run in the source's order: the category, then the
  difficulty. A decoder `ParseUrl` reads a request back out of a URL, and
  the round-trip lemma shows that the URL determines the request.
- **Answers and replies** (`answers.dfy`, module `TriviaAnswers`): the
  answer list is the incorrect answers plus the correct one, shuffled in
  place by a Fisher-Yates pass whose swap partners are chosen arbitrarily.
  `correct_index` is the first position of the correct answer. The lettered
  answer listing is built by the `answer_text` loop. The reply `check`
  accepts a content that upper-cases to one of A, B, C, D, and the letter's
  position is the answer index.
- **Score table** (`scores.dfy`, module `TriviaScores`, and `cog.dfy`,
  class `TriviaCog.Trivia`): a user id to `{correct, total}` dictionary.
  Recording an answer inserts 0/0 for a new user, then adds 1 to `total`,
  and adds 1 to `correct` when the chosen index is the correct index. The
  class keeps the dictionary as a `map` plus the key insertion order, since
  Python dicts are ordered and `items()` feeds the leaderboard's stable
  sort. The class invariant `Valid()` says that every stored entry has
  `correct <= total` and `total >= 1`.
- **Leaderboard** (`leaderboard.dfy`, module `TriviaLeaderboard`): the
  table's items are sorted, stably and in descending order, by the key
  `(correct, correct / total)`. The rates are compared exactly, by
  cross-multiplication. The first ten entries are kept and numbered from 1.
- `text.dfy` (module `Text`): ASCII case mapping, and decimal rendering of
  integers with its inverse. `wrappers.dfy`: `Option` and `Result`.

Inputs that come from outside the cog are parameters. `Trivia.Play`
follows the command from the argument checks to the score update: the
fetched question is a `Question` value with its HTML entities already
decoded (`None` for a failed request), and the messages that arrive before
the timeout are a sequence, of which `wait_for` takes the first that passes
the reply check.

## Notes on the source

- `cogs/trivia.py:12` reads `self.self.bot = self.bot`, which raises at
  construction; the model's constructor simply starts the table empty.
- The command and the two lookups use `self.bot.trivia_scores`
  (cogs/trivia.py:144-150, 208, 234), while loading and saving use
  `self.trivia_scores` (cogs/trivia.py:13-29). The model has one table.
- cogs/trivia.py:184-195 repeats the score update, on the other
  dictionary, after the `try` block. The model records each answer once,
  as in cogs/trivia.py:143-150.

## Model

| member | source | states |
|---|---|---|
| `TriviaRequest.CheckRequest` | cogs/trivia.py:40-71 | an unknown category (after lower-casing) is rejected first, then a difficulty outside easy/medium/hard; otherwise the request holds the mapped id and the lower-cased difficulty |
| `TriviaRequest.CheckRequestCaseInsensitive` | cogs/trivia.py:63-69 | the verdict depends on the arguments only after lower-casing |
| `TriviaRequest.ListedArgumentsAccepted` | cogs/trivia.py:40-69 | every listed category and difficulty, in any letter case, is accepted |
| `TriviaRequest.Url` | cogs/trivia.py:74-77 | the URL starts with the fixed base and ends with the lower-cased difficulty |
| `TriviaRequest.UrlEndsWithDifficulty` | cogs/trivia.py:77 | the URL always ends with `&difficulty=<d>` |
| `TriviaRequest.ParseUrlInvertsUrl` | cogs/trivia.py:74-77 | the URL (base, `&category=<id>` unless "any", `&difficulty=<d>`) decodes back to the request it was built from |
| `TriviaRequest.UrlInjective` | cogs/trivia.py:74-77 | different requests give different URLs |
| `TriviaRequest.UrlHasCategoryIffNotAny` | cogs/trivia.py:75-76 | the category parameter follows the base exactly when the mapped id is not None |
| `TriviaRequest.DefaultUrl` | cogs/trivia.py:32-77 | the default arguments ask for a medium question of any category, at the base URL plus `&difficulty=medium` |
| `TriviaRequest.BooksHardAccepted` | cogs/trivia.py:40-69 | "Books"/"HARD" are accepted as category 10, difficulty "hard" |
| `TriviaRequest.BooksHardUrl` | cogs/trivia.py:74-77 | that request is sent to `...&category=10&difficulty=hard` |
| `Text.Lower` | cogs/trivia.py:63-77 | `str.lower()` (ASCII): same length, no upper-case letter left |
| `Text.Upper` | cogs/trivia.py:133-140 | `str.upper()` (ASCII): same length, no lower-case letter left |
| `Text.DecimalRoundTrip` | cogs/trivia.py:76 | the decimal rendering of the category id reads back as that id |
| `TriviaAnswers.IndexOf` | cogs/trivia.py:107 | `list.index`: a valid position holding the value, with no earlier occurrence |
| `TriviaAnswers.Shuffle` | cogs/trivia.py:104 | the shuffled list is a permutation of the list before |
| `TriviaAnswers.SetUpAnswers` | cogs/trivia.py:100-107 | the answers are a permutation of the incorrect answers plus the correct one; `correctIndex` is the first position holding the correct answer |
| `TriviaAnswers.Line` | cogs/trivia.py:123 | one listing line: the letter at that position, a dot, the answer, a newline |
| `TriviaAnswers.Listing` | cogs/trivia.py:122-123 | the listing of the answers, one `Line` per answer in order; `ListingLine` states where each line sits |
| `TriviaAnswers.AnswerText` | cogs/trivia.py:119-123 | the listing is one lettered line per answer; more answers than letters is the IndexError path |
| `TriviaAnswers.ListingLine` | cogs/trivia.py:122-123 | the answer at position k is printed on the line labelled with letter k |
| `TriviaAnswers.ReplyIndex` | cogs/trivia.py:133-140 | a reply has an index exactly when its upper-cased content is one of the letters, and that index is the letter's position |
| `TriviaAnswers.ReplyIndexExactly` | cogs/trivia.py:119-140 | the reply picks index k exactly when it is the single character `"ABCD"[k]` or `"abcd"[k]` |
| `TriviaAnswers.ReplyAcceptedExactly` | cogs/trivia.py:133 | a reply is accepted exactly when it is one character from A-D or a-d |
| `TriviaAnswers.IsReply` | cogs/trivia.py:132-133 | `check` accepts exactly the asker's one-letter A-D (or a-d) replies in the asking channel |
| `TriviaAnswers.FirstReply` | cogs/trivia.py:137 | `wait_for` yields the first arriving message that passes `check`, or the timeout exactly when none passes |
| `TriviaScores.Recorded` | cogs/trivia.py:143-150 | the user is added if absent; their total goes up by exactly 1 and their correct count by 1 iff the answer was correct; all other entries are unchanged |
| `TriviaScores.RecordedKeepsConsistent` | cogs/trivia.py:143-150 | recording an answer keeps `correct <= total` and `total >= 1` for every entry |
| `TriviaScores.ReplayKeepsConsistent` | cogs/trivia.py:143-150 | any sequence of recorded answers keeps the table consistent |
| `TriviaScores.ReplayCounts` | cogs/trivia.py:143-150 | from an empty table, a user has an entry iff they answered, and it holds their correct answers over their answered questions |
| `TriviaScores.CorrectAtMostCount` | cogs/trivia.py:147-150 | no user has more correct answers than answered questions |
| `TriviaScores.StatsOf` | cogs/trivia.py:208-214 | "hasn't answered yet" exactly when the user is absent or has total 0; otherwise the user's correct and total |
| `TriviaScores.StatsOfConsistent` | cogs/trivia.py:208-215 | on a consistent table, "hasn't answered yet" exactly when the user is absent, and the reported rate is defined |
| `TriviaScores.StatsAfterRecorded` | cogs/trivia.py:143-214 | right after answering, the user's stats are reported with the total one higher |
| `TriviaLeaderboard.RanksTotal` | cogs/trivia.py:241 | any two sort keys are comparable |
| `TriviaLeaderboard.RanksTransitive` | cogs/trivia.py:241 | the key order (correct, then rate by cross-multiplication) is transitive |
| `TriviaLeaderboard.CrossTransitive` | cogs/trivia.py:241 | comparing fractions by cross-multiplication is transitive for positive denominators |
| `TriviaLeaderboard.Insert` | cogs/trivia.py:239-243 | inserting into the sorted list adds exactly that item |
| `TriviaLeaderboard.InsertSorted` | cogs/trivia.py:239-243 | insertion keeps the list in non-increasing key order |
| `TriviaLeaderboard.SortDesc` | cogs/trivia.py:239-243 | the sorted list is a permutation of the items |
| `TriviaLeaderboard.SortDescSorted` | cogs/trivia.py:239-243 | the sorted list is in non-increasing key order |
| `TriviaLeaderboard.SortedPrefixIsTop` | cogs/trivia.py:252 | nothing past the first ten of the sorted list ranks above any of the ten |
| `TriviaLeaderboard.ShownRanked` | cogs/trivia.py:252 | `enumerate(..., 1)` numbers the rows 1, 2, ... and keeps the entries |
| `TriviaLeaderboard.Ranked` | cogs/trivia.py:252 | `enumerate(entries, 1)`: row i carries number i + 1 and the i-th entry; `ShownRanked` states it |
| `TriviaLeaderboard.Leaderboard` | cogs/trivia.py:234-252 | the board: "no one has played" for no items, otherwise the first ten of the sorted items, numbered; `LeaderboardSpec` states its properties |
| `TriviaLeaderboard.LeaderboardSpec` | cogs/trivia.py:234-252 | empty table gives "no one has played"; otherwise min(10, n) rows numbered from 1, in non-increasing key order, drawn from the table, with no left-out entry ranking above a shown one |
| `TriviaLeaderboard.LeaderboardRatesDefined` | cogs/trivia.py:259 | on a consistent table every shown row has a non-zero total, so the rate division is safe |
| `TriviaLeaderboard.RanksAtLeast` | cogs/trivia.py:241 | the key `(correct, correct/total, or 0 when total is 0)` of one entry is at least the other's, tuples compared left to right and rates by cross-multiplication |
| `TriviaCog.ItemsOf` | cogs/trivia.py:240 | `items()`: entry i is the i-th key with its score, and each stored (user, score) pair appears |
| `TriviaCog.IndexedInsert` | cogs/trivia.py:144-145 | inserting a new key at the end of the key order keeps it in step with the dictionary |
| `TriviaCog.BoardOfTable` | cogs/trivia.py:234-259 | the board of a consistent table is empty exactly when the table is, and every row is a stored entry with a defined rate |
| `TriviaCog.Trivia.constructor` | cogs/trivia.py:13-22 | the cog starts (saved file missing) with an empty, valid table |
| `TriviaCog.Trivia.RecordAnswer` | cogs/trivia.py:143-150 | the new table is `Recorded` of the old one, a new user joins the end of the key order, and the invariant is kept |
| `TriviaCog.Trivia.Settle` | cogs/trivia.py:135-168 | a timeout leaves the table and key order untouched; a reply records the answer, a new user joining the end of the key order |
| `TriviaCog.Trivia.Play` | cogs/trivia.py:63-168 | the whole command: the URL requested is `Url` of the checked request, and none is requested when the arguments are rejected; a rejected request, a failed fetch, a listing IndexError or a timeout leave the table untouched; otherwise the answers are set up as `SetUpAnswers` promises, and the first accepted reply is recorded, correct iff its letter's index is `correctIndex` |
| `TriviaCog.Trivia.Stats` | cogs/trivia.py:197-214 | `!triviascore` reports "not answered" exactly for absent users, otherwise the stored record, with correct <= total and total >= 1 |
| `TriviaCog.Trivia.Board` | cogs/trivia.py:228-252 | `!triviatop` is "no one has played" exactly for an empty table; every row is a stored entry with a defined rate |

## Left out

- Discord I/O: embeds, `ctx.send`, `wait_for` with its 60-second timeout, `fetch_user` and its fallback name (cogs/trivia.py:110-129, 137, 253-257). The library is not part of this model. `Trivia.Play` takes the messages that arrive before the timeout as a sequence, and `FirstReply` picks the first that passes `check`.
- The HTTP request to opentdb.com, the status and `response_code` checks, and `html.unescape` (cogs/trivia.py:80-97). These are a network call and a foreign library; the question is an input value.
- The randomness of `random.shuffle`: the model allows any swap partner at each step and proves only that the result is a permutation.
- Loading and saving `data/trivia_scores.json` (cogs/trivia.py:16-29). This is file I/O; the constructor takes the missing-file case, an empty table.
- The error texts, including the joined list of valid category names (cogs/trivia.py:64-65, 70), and `difficulty.capitalize()` for display (cogs/trivia.py:95). These are user-facing formatting only.
- The floating-point success rate and its `{:.1f}%` formatting (cogs/trivia.py:153-162, 215, 259). Only the ordering uses the rate, compared exactly as a rational.
- `TriviaLeaderboard.RanksAtLeast`: Python compares the rates as floats. Two different rationals that round to the same float would tie in the source but not here.
- `Text.Lower`, `Text.Upper`: ASCII only. Python's `lower()` also folds some non-ASCII characters (KELVIN SIGN to `k`, for one), so a few exotic spellings the source would accept are rejected here.
- `TriviaLeaderboard.SortDesc`: stable by construction (an item is inserted after every entry with a key at least its own), but stability is not stated as a lemma.
- The duplicate update after the `try` block (cogs/trivia.py:184-195), which writes a second dictionary.
- The reminder feature advertised in cogs/general.py:56-58. No reminder code is among the files of this model.
- cogs/general.py, bot.py, cogs/roll.py and config.py: help text, ping, server info, 8-ball, error replies and environment loading, none of which touch the trivia state. `roll_dice` has no body.
