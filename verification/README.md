# CodeCracker game logic in Dafny

CodeCracker is a two-player "+positions, -digits" number-guessing game. Each
player picks a secret: four different digits forming a number in
[1000, 9999]. The players then guess each other's secrets. A guess is scored
with two counts. A correct position is a digit in the right place. A correct
digit occurs in the secret at another place. Four correct positions win.

This project models the game logic of the repository:

- `Validation`: the input check `is_valid_input` / `is_valid_secret`. Both methods have the same body, so it is defined once. It comes in two forms: the check as written, and a corrected one that also demands four characters (see Findings). The prompting loops, `play` and the console game take the form as a parameter of type `Check`.
- `Decimal`: the `int()` / `str()` conversions that check relies on, restricted to ASCII digit strings.
- `Scoring`: `calculate_score`, `is_game_over` and the `"+P, -D"` result text.
- `GuessPlayer`: the player record, the constructor defaults, and the two prompting loops `get_secret` and `receive`. Console input is a supplied sequence of lines.
- `GuessSecretGame`: the server-side two-player session:
  - the player list capped at two;
  - the `player1` / `player2` properties;
  - the readiness gate `is_okay_start`;
  - the guesser lookup;
  - `play`, which appends one turn record.

  Errors are values of a `Result` type, not exceptions.
- `GuessSecret`: the console game. It picks the guesser by turn parity and runs a loop that stops after the first four-position guess. The loop is a recursive function over the supplied input lines.
- `Runs`: generic facts about a run of consecutive turns. These are used to read the console game's history index by index.
- `Timeout`: `check_game_timeout`, the sweep that drops idle games. It is a loop over a snapshot of the game ids, checked against a map comprehension. The clock reading `now` and the `timeout` are integer parameters.

The model follows the code where the code does less than the game's design
describes:

- `GuessSecretGame.play` computes the turn count but never uses it. Turn alternation is therefore not enforced, and `PlayIgnoresTurnOrder` proves that.
- There is no game-over state: a won session keeps accepting guesses.
- Secrets are not write-once.
- Nothing updates a game's last activity time.
- Sessions are not created or joined through a registry. Only the sweep over a map of games exists.

## Model

| member | source | states |
|---|---|---|
| Decimal.ToDecimalValue | games/guess_secret_game.py:39 | `str(n)` writes digits whose value is n again |
| Decimal.CanonicalRoundTrip | games/guess_secret_game.py:35-39 | for a digit string without a leading zero, `str(int(s))` gives back s |
| Decimal.Value | games/guess_secret_game.py:35 | `int(s)` on an ASCII digit string, leading zeros allowed; `ToDecimalValue` and `CanonicalRoundTrip` relate it to `str()` |
| Decimal.ToDecimal | games/guess_secret_game.py:39 | `str(n)`: a non-empty digit string that starts with '0' exactly when n is 0 |
| Validation.ValidInputCharacterization | games/guess_secret_game.py:32-42 | a four-character input is accepted exactly when it is four digit characters, the first is not '0', and no two are equal (both directions) |
| Validation.RejectedExamples | games/guess_secret_game.py:35-42 | "1123" (repeated digit), "0123" (value below 1000) and "12a4" (not a number) are rejected; "1234" and "5678" are accepted |
| Validation.FourDistinctDigitsAccepted | player/guess_player.py:18-26 | any four different digits with a non-zero first digit pass the check |
| Validation.NonNumericRejected | player/guess_player.py:27-28 | a string with a non-digit character is rejected instead of raising |
| Validation.LeadingZeroRejected | player/guess_player.py:21-23 | a four-character input starting with '0' is rejected because its value is below 1000 |
| Validation.PaddedInputAccepted | games/guess_secret_game.py:35-40 | as written, a valid code behind any number of '0's is still accepted, because only the parsed value is checked |
| Validation.AcceptedHasFourCharacters | games/guess_secret_game.py:35-37 | every input the check accepts as written has at least four characters, so scoring never indexes past its end |
| Validation.IsValidInputAsWritten | games/guess_secret_game.py:32-42 | `is_valid_input` as written: the input parses as a number in [1000, 9999] whose decimal spelling repeats no digit; the raw length is never looked at |
| Validation.IsValidInput | games/guess_secret_game.py:32-42 | the corrected check: the same verdict, for four-character inputs only |
| Validation.AsWrittenCharacterization | games/guess_secret_game.py:32-42 | as written, an input is accepted exactly when it is a valid four-character code behind zero or more '0's (both directions) |
| Validation.AcceptedIsPadded | games/guess_secret_game.py:35-40 | an input accepted as written has only '0's before its last four characters, and those four pass the corrected check |
| Validation.Accepts | player/guess_player.py:13-14 | whichever form of the check a loop applies, it accepts only inputs of at least four characters |
| Scoring.ScoreUpTo | games/guess_secret_game.py:55-59 | after n iterations of the loop the two counts together are at most n |
| Scoring.CalculateScore | games/guess_secret_game.py:51-61 | each count is in [0, 4] and their sum is at most 4, since each position adds to at most one count |
| Scoring.AllPositionsIffSamePrefix | games/guess_secret_game.py:55-57 | after n iterations, n correct positions exactly when the first n characters agree |
| Scoring.WinIffSamePrefix | games/guess_secret_game.py:55-61 | four correct positions exactly when guess and secret agree on the four compared characters; then the score is (0, 4) |
| Scoring.IsGameOver | games/guess_secret_game.py:92-93 | the game is over exactly at four correct positions; `is_game_over` at games/guess_secret.py:61-62 is the same test |
| Scoring.ValidGuessWinsIffEqual | games/guess_secret.py:22-32 | for valid codes the game is over exactly when the guess equals the secret, and scoring a secret against itself gives (0, 4) |
| Scoring.HitsAreCommonDigits | games/guess_secret_game.py:55-59 | when the guess has no repeated digit, positions plus digits after n iterations equals the number of distinct digits the first n guessed characters share with the secret |
| Scoring.ScoreCountsCommonDigits | games/guess_secret_game.py:51-61 | for valid codes, positions plus digits is the number of digits guess and secret have in common |
| Scoring.PositionsSymmetric | games/guess_secret_game.py:55-57 | the correct-position count does not depend on which string is the guess |
| Scoring.ScoreSymmetric | games/guess_secret_game.py:51-61 | for valid codes the whole score is symmetric in guess and secret |
| Scoring.PaddedGuessWins | games/guess_secret_game.py:32-61 | with the check as written, guess "01235" against secret "01234" passes validation and scores four correct positions, though the two numbers differ |
| Scoring.PaddedCodeAccepted | games/guess_secret_game.py:35-40 | a valid four-digit code behind one '0' passes the check as written and parses to the code's value |
| Scoring.ResultRoundTrip | games/guess_secret_game.py:80 | the `"+P, -D"` text of a score reads back to that same score |
| Scoring.FormatResult | games/guess_secret_game.py:80 | the `"+P, -D"` text of a score; `ResultRoundTrip` reads it back |
| GuessPlayer.NewGuessPlayer | player/guess_player.py:4-8 | a new player keeps the given name, sid and game id, and starts with score 0 and guess and secret 0, so its secret is falsy |
| GuessPlayer.Receive | player/guess_player.py:30-36 | the loop returns an accepted line after skipping only rejected ones, so the first accepted one, and leaves the lines after it; it ends without a value exactly when no line is accepted |
| GuessPlayer.ValidLines | player/guess_player.py:30-36 | the accepted input lines in order, the lines a run of prompting loops settles on |
| GuessPlayer.ReceiveTakesFirstValidLine | player/guess_player.py:30-36 | the line returned is the first accepted line, and the accepted lines after it are exactly the ones still to come; no value exactly when no line is accepted |
| GuessPlayer.GetSecret | player/guess_player.py:10-16 | the secret stored is the first accepted line, input is consumed up to that line and no further, and nothing else about the player changes; it fails exactly when no line is accepted |
| GuessSecretGame.NewSession | games/guess_secret_game.py:7-10 | a new session has no players and no history, both player properties are None, and it is not ready to start |
| GuessSecretGame.AddPlayer | games/guess_secret_game.py:12-15 | refused with GameFull exactly when two players are present; otherwise the player is appended last |
| GuessSecretGame.AddPlayerKeepsAtMostTwo | games/guess_secret_game.py:12-15 | starting from at most two players, adding never leads past two, and a refusal means the session was full |
| GuessSecretGame.FirstIndexOf | games/guess_secret_game.py:18 | the first position holding the player, with no earlier match |
| GuessSecretGame.RemovePlayer | games/guess_secret_game.py:17-18 | fails with PlayerNotFound exactly when the player is absent; otherwise only its first occurrence is removed and the others keep their order |
| GuessSecretGame.IsOkayStart | games/guess_secret_game.py:95-96 | ready exactly when there are two players and both secrets are truthy |
| GuessSecretGame.AddThenRemove | games/guess_secret_game.py:12-18 | removing a player just added to a session that did not hold it restores the session |
| GuessSecretGame.Player1 | games/guess_secret_game.py:20-24 | the first player, or None exactly when there are no players |
| GuessSecretGame.Player2 | games/guess_secret_game.py:26-30 | the second player, or None exactly when there are fewer than two |
| GuessSecretGame.CurrentPlayerAndTargetSecret | games/guess_secret_game.py:44-47 | the first player with the second's secret when the first name matches; otherwise the second player with the first's secret, whatever its name; the name returned matches exactly when some player's does |
| GuessSecretGame.Play | games/guess_secret_game.py:63-86 | each error is returned exactly when its check is the first to fail: NotReady, then InvalidGuess under the chosen form of the check, then NotYourTurn for an unknown name, then SecretTooShort for a target under four characters; otherwise the guess is accepted, exactly one record (name, guess, score against the opponent's secret) is appended, and the guesser is returned exactly when the first four characters agree with that secret |
| GuessSecretGame.PaddedGuessWinsSession | games/guess_secret_game.py:63-86 | with the check as written, the second player's guess "01235" against the first player's secret "01234" is accepted and wins; the corrected check refuses it with InvalidGuess |
| GuessSecretGame.FreshPlayersNotReady | games/guess_secret_game.py:95-96 | two freshly constructed players fill a session, which is still not ready, and `play` is refused with NotReady |
| GuessSecretGame.PlayIgnoresTurnOrder | games/guess_secret_game.py:70-76 | after an accepted guess, the same player may play again straight away, even after a win |
| GuessSecretGame.PlayAppendsOnly | games/guess_secret_game.py:76-81 | an accepted guess leaves the players and activity time unchanged and extends the history by one record, keeping the old records |
| GuessSecret.NewGame | games/guess_secret.py:5-7 | a new game holds the two players and an empty history |
| GuessSecret.TurnsAlternate | games/guess_secret.py:10-14 | player1 guesses on even turns and player2 on odd ones; each guesser targets the next guesser's secret; consecutive turns have different guessers |
| GuessSecret.CurrentPlayerAndTargetSecret | games/guess_secret.py:10-14 | player1 with player2's secret on even turns, the reverse on odd ones; `TurnsAlternate` states the consequences |
| GuessSecret.TurnRecordFor | games/guess_secret.py:41-45 | the record a turn appends names that turn's guesser and holds the accepted guess with its score against the target secret |
| GuessSecret.RunTurns | games/guess_secret.py:40-46 | the loop changes only the history, keeps the old records as a prefix, and a won game has at least one new record |
| GuessSecret.RunTurnsRecords | games/guess_secret.py:40-46 | the appended records are those of consecutive turns: each names that turn's guesser, holds a checked guess and its score; all but the last lost, and the game is won exactly when the last one won, by its guesser |
| GuessSecret.RunTurnsReadsValidLines | games/guess_secret.py:40-46 | the appended records guess the accepted lines in order, as far as they go, and a game that ends without a winner has guessed every accepted line |
| GuessSecret.Play | games/guess_secret.py:36-40 | secrets are read before any turn; a won game had both secrets set; if the secrets are not ready, no turn was recorded |
| GuessSecret.PlayReadsInput | games/guess_secret.py:16-46 | the first two accepted lines become player1's and player2's secrets; with fewer, no turn is played; the guesses that follow are the next accepted lines, and a game without a winner has used them all |
| GuessSecret.FreshGameHistory | games/guess_secret.py:36-49 | from a new game, record k is turn k's (so the history length is the turn count), every turn before the last lost, and the announced winner made the last, winning guess |
| GuessSecret.RunTurnsFromStart | games/guess_secret.py:38-46 | the same reading for the loop started at turn 0 on an empty history |
| GuessSecret.TurnsFromStart | games/guess_secret.py:40-46 | records of consecutive turns from turn 0 read index by index: record k is turn k's, and the winner made the last guess |
| GuessSecret.TurnAt | games/guess_secret.py:40-45 | record k of a run from turn 0 names turn k's guesser and holds that turn's checked guess and score; it lost unless it is the winning last record |
| GuessSecret.LastTurnWon | games/guess_secret.py:37-46 | the last record of a won run is the winning turn, and the winner is that turn's guesser |
| GuessSecret.EarlierTurnLost | games/guess_secret.py:37-45 | every record of a run except a winning last one shows a score that does not end the game |
| Runs.RunFromLost | games/guess_secret.py:40-46 | entry k of a run records turn t + k, and it did not end the game unless it is the last entry of a won run |
| Runs.RunFromWon | games/guess_secret.py:37-46 | a won run is not empty and its last entry, made on turn t + length - 1, won |
| Timeout.Swept | utils.py:13-16 | the games that stay keep their entries and have not timed out; no new ids appear |
| Timeout.CheckGameTimeout | utils.py:9-19 | an id remains exactly when it was present and `now - last_played_at <= timeout`, with the same game as before |
| Timeout.SweepIdempotent | utils.py:13-16 | sweeping twice at the same instant gives the same map as sweeping once |
| Timeout.SweepShrinksOverTime | utils.py:15 | a later sweep keeps no game an earlier one dropped |
| Timeout.RecentGameSurvives | utils.py:15 | a game idle for at most the timeout, including exactly the timeout, is kept unchanged |
| Timeout.SweepLocal | utils.py:13 | whether a game stays does not depend on any other entry |

## Left out

- Console and server I/O: `input()` prompts become a supplied sequence of lines, and running out of lines stands for EOFError. All `print` calls, including `print_turn_history`, are dropped.
- Python's `int()` leniency is not modelled. It also accepts surrounding whitespace, a sign, underscores and non-ASCII digits. The model parses only non-empty ASCII digit strings and treats everything else as ValueError.
- `generate_custom_id` (utils.py:22-25) is left out because it depends on the wall clock and randomness.
- `datetime.now()` and `timedelta` become integer parameters counted in one fixed unit.
- The constructor chain of `GuessSecretGame` is not modelled. It calls the abstract `Game.__init__` with the wrong arguments, so the model builds the declared fields (`players`, `turn_history`) directly. `GuessSecretGame` also lacks the abstract `start_game`.
- `Player.to_dict` is left out. It reads a `_sid` attribute that is never set.
- Player identity is modelled by an explicit `id` field. `list.remove` compares by equality, which for these objects is identity.
- GuessSecretGame.Session: the source classes never define `last_played_at`, although the sweep reads it. The model gives a session this field, and no operation changes it.
- Scoring.TurnRecord: the source stores the result as the text `"+P, -D"`. The model stores the score itself. `ResultRoundTrip` shows that the text and the score determine each other.
- GuessSecret.TurnsFrom: whether a turn won is read from the score its record holds. `TurnMatches` ties that score to the guess and the target secret.
- GuessSecret.RunTurns: the source checks for game over at the top of the loop, starting from a score of 0. The model checks right after appending the turn's record. Both stop after the same record.
- GuessSecretGame.Play: a truthy secret shorter than four characters makes `calculate_score` raise IndexError. This is modelled as the error SecretTooShort. A session can hold such a secret: `AddPlayer` accepts any player, and the online session never checks a secret itself.
- GuessSecretGame.CurrentPlayerAndTargetSecret: requires two players. In the source, one player whose name matches makes it fail on `None.secret` (line 46). One player whose name does not match makes it return `(None, player1.secret)`, and `play` then fails at line 73 on `None.name`. `play` reaches the method only after the readiness gate, which needs two players.
- Validation.PaddedInputAccepted and Validation.AsWrittenCharacterization: any number of leading '0's is allowed. Since Python 3.11, CPython's `int()` raises ValueError for strings of more than 4300 digits, so on those versions an input with more than 4296 padding zeros is rejected.
- Concurrency, locking and reconnection are left out because the code has none of them.
- The browser client, the web server and the interactive test driver are not part of this model.

## Findings

| source | as written | input that shows it | evidently intended | confidence | as-written member | corrected member |
|---|---|---|---|---|---|---|
| games/guess_secret_game.py:32-42 and player/guess_player.py:18-26 | the check looks only at the parsed value, never at the raw length, while `calculate_score` compares the first four raw characters | guess "01235" against secret "01234": both pass the check, yet the guess scores four correct positions and wins | an accepted secret or guess is exactly four characters, so winning means guessing the secret | not executed | Validation.IsValidInputAsWritten, Scoring.PaddedGuessWins, GuessSecretGame.PaddedGuessWinsSession | Validation.IsValidInput, Scoring.ValidGuessWinsIffEqual |
