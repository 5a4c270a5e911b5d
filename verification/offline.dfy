/** `GuessSecret`: the console version. Both players enter secrets, then
    player1 and player2 guess in turn until a guess matches all four positions.
    Console lines are a supplied sequence; running out of them ends the game
    the way EOFError would. */
module GuessSecret {
  import opened Wrappers
  import opened Validation
  import opened Scoring
  import opened GuessPlayer
  import opened Runs

  datatype Game = Game(player1: Player, player2: Player, history: seq<TurnRecord>)

  /** A game: won by a player, or cut short because input ran out. */
  datatype Outcome = Won(game: Game, winner: Player) | InputEnded(game: Game)

  /** A new game with an empty history. */
  function NewGame(player1: Player, player2: Player): (g: Game)
    ensures g.player1 == player1 && g.player2 == player2 && |g.history| == 0
  {
    Game(player1, player2, [])
  }

  /** `get_current_player_and_target_secret(turn_count)` on a game whose players
      are p1 and p2: on even turns p1 guesses p2's secret, on odd turns the reverse. */
  function CurrentPlayerAndTargetSecret(p1: Player, p2: Player, turnCount: nat): (Player, Slot) {
    if turnCount % 2 == 0 then (p1, p2.secret) else (p2, p1.secret)
  }

  /** Whose turn it is alternates, and each guesser targets the secret of the
      player who guesses next. */
  lemma TurnsAlternate(p1: Player, p2: Player, t: nat)
    ensures CurrentPlayerAndTargetSecret(p1, p2, t).0 == (if t % 2 == 0 then p1 else p2)
    ensures CurrentPlayerAndTargetSecret(p1, p2, t + 1).0.secret == CurrentPlayerAndTargetSecret(p1, p2, t).1
    ensures CurrentPlayerAndTargetSecret(p1, p2, t).0.secret == CurrentPlayerAndTargetSecret(p1, p2, t + 1).1
    ensures CurrentPlayerAndTargetSecret(p1, p2, t + 2) == CurrentPlayerAndTargetSecret(p1, p2, t)
    ensures p1 != p2 ==> CurrentPlayerAndTargetSecret(p1, p2, t + 1).0 != CurrentPlayerAndTargetSecret(p1, p2, t).0
  {
  }

  /** Both secrets have been entered and passed the check. */
  predicate SecretsReady(c: Check, p1: Player, p2: Player) {
    && p1.secret.Text? && Accepts(c, p1.secret.text)
    && p2.secret.Text? && Accepts(c, p2.secret.text)
  }

  /** The score of a guess made on turn t. */
  function TurnScore(c: Check, p1: Player, p2: Player, t: nat, guess: string): Score
    requires SecretsReady(c, p1, p2) && Accepts(c, guess)
  {
    CalculateScore(guess, CurrentPlayerAndTargetSecret(p1, p2, t).1.text)
  }

  /** Record `rec` is what turn t appends: the guesser's name, a checked guess,
      and its score against the other player's secret. */
  predicate TurnMatches(c: Check, p1: Player, p2: Player, t: nat, rec: TurnRecord)
    requires SecretsReady(c, p1, p2)
  {
    && rec.player == CurrentPlayerAndTargetSecret(p1, p2, t).0.name
    && Accepts(c, rec.guess)
    && rec.result == TurnScore(c, p1, p2, t, rec.guess)
  }

  /** The record turn t appends for an accepted guess. */
  function TurnRecordFor(c: Check, p1: Player, p2: Player, t: nat, guess: string): (rec: TurnRecord)
    requires SecretsReady(c, p1, p2) && Accepts(c, guess)
    ensures TurnMatches(c, p1, p2, t, rec) && rec.guess == guess
  {
    TurnRecord(CurrentPlayerAndTargetSecret(p1, p2, t).0.name, guess, TurnScore(c, p1, p2, t, guess))
  }

  /** Record `rec` shows a score that does not end the game. */
  predicate TurnLost(rec: TurnRecord) {
    !IsGameOver(rec.result.positions)
  }

  /** Record `rec` shows a score that ends the game. */
  predicate TurnWon(rec: TurnRecord) {
    IsGameOver(rec.result.positions)
  }

  /** The loop of `play` from turn `turnCount` on: each iteration reads a guess
      from the current player, scores it, appends one record and advances the
      turn; the first four-position guess ends the loop with its guesser as
      the winner. Only the history changes. */
  function RunTurns(c: Check, g: Game, turnCount: nat, inputs: seq<string>): (r: Outcome)
    requires SecretsReady(c, g.player1, g.player2)
    ensures r.game.player1 == g.player1 && r.game.player2 == g.player2
    ensures |g.history| <= |r.game.history| && r.game.history[..|g.history|] == g.history
    ensures r.Won? ==> |g.history| < |r.game.history|
    decreases |inputs|
  {
    match Receive(c, inputs)
    case None => InputEnded(g)
    case Some(read) =>
      var rec := TurnRecordFor(c, g.player1, g.player2, turnCount, read.value);
      var g' := g.(history := g.history + [rec]);
      if TurnWon(rec) then Won(g', CurrentPlayerAndTargetSecret(g.player1, g.player2, turnCount).0)
      else
        var r := RunTurns(c, g', turnCount + 1, read.rest);
        PrefixBeforeLast(r.game.history, g.history, rec);
        r
  }

  /** A record of turn t that did not end the game. */
  function LostTurn(c: Check, p1: Player, p2: Player): (nat, TurnRecord) -> bool {
    (t: nat, rec: TurnRecord) => SecretsReady(c, p1, p2) && TurnMatches(c, p1, p2, t, rec) && TurnLost(rec)
  }

  /** The record of turn t that ended the game, whose guesser is `winner`. */
  function WonTurn(c: Check, p1: Player, p2: Player, winner: Option<Player>): (nat, TurnRecord) -> bool {
    (t: nat, rec: TurnRecord) =>
      && SecretsReady(c, p1, p2) && TurnMatches(c, p1, p2, t, rec) && TurnWon(rec)
      && winner == Some(CurrentPlayerAndTargetSecret(p1, p2, t).0)
  }

  /** A history ending in one matching record with a winning score, made by
      the winner, is a won run from that record's turn. */
  lemma TurnsFromWinning(c: Check, p1: Player, p2: Player, t: nat, rec: TurnRecord, winner: Option<Player>,
                         h: seq<TurnRecord>, pre: seq<TurnRecord>)
    requires SecretsReady(c, p1, p2) && TurnMatches(c, p1, p2, t, rec) && TurnWon(rec)
    requires winner == Some(CurrentPlayerAndTargetSecret(p1, p2, t).0)
    requires h == pre + [rec]
    ensures TurnsFrom(c, p1, p2, t, h[|pre|..], winner)
  {
    assert h[|pre|..] == [rec];
    assert WonTurn(c, p1, p2, winner)(t, rec);
    RunFromSingle(LostTurn(c, p1, p2), WonTurn(c, p1, p2, winner), t, rec, true);
  }

  /** A matching record with a losing score, followed by the records of the
      turns after it, is a run from its own turn. */
  lemma TurnsFromLosing(c: Check, p1: Player, p2: Player, t: nat, rec: TurnRecord, winner: Option<Player>,
                        h: seq<TurnRecord>, pre: seq<TurnRecord>)
    requires SecretsReady(c, p1, p2) && TurnMatches(c, p1, p2, t, rec) && TurnLost(rec)
    requires |pre| + 1 <= |h| && h[..|pre| + 1] == pre + [rec]
    requires TurnsFrom(c, p1, p2, t + 1, h[|pre| + 1..], winner)
    ensures TurnsFrom(c, p1, p2, t, h[|pre|..], winner)
  {
    SuffixAfterLast(h, pre, rec);
    assert LostTurn(c, p1, p2)(t, rec);
    RunFromCons(LostTurn(c, p1, p2), WonTurn(c, p1, p2, winner), t, rec, h[|pre| + 1..], winner.Some?);
  }

  /** What a losing record says, read back from `LostTurn`. */
  lemma LostTurnFacts(c: Check, p1: Player, p2: Player, t: nat, rec: TurnRecord)
    requires LostTurn(c, p1, p2)(t, rec)
    ensures SecretsReady(c, p1, p2) && TurnMatches(c, p1, p2, t, rec) && TurnLost(rec)
  {
  }

  /** What a winning record says, read back from `WonTurn`. */
  lemma WonTurnFacts(c: Check, p1: Player, p2: Player, winner: Option<Player>, t: nat, rec: TurnRecord)
    requires WonTurn(c, p1, p2, winner)(t, rec)
    ensures SecretsReady(c, p1, p2) && TurnMatches(c, p1, p2, t, rec) && TurnWon(rec)
    ensures winner == Some(CurrentPlayerAndTargetSecret(p1, p2, t).0)
  {
  }

  /** `recs` are the records of consecutive turns t, t + 1, ...: each names
      that turn's guesser, holds a checked guess and its score; every turn but
      the last lost, and the last won exactly when there is a `winner`, who is
      that turn's guesser. */
  predicate TurnsFrom(c: Check, p1: Player, p2: Player, t: nat, recs: seq<TurnRecord>, winner: Option<Player>) {
    RunFrom(LostTurn(c, p1, p2), WonTurn(c, p1, p2, winner), t, recs, winner.Some?)
  }

  /** The winner an outcome announces, if any. */
  function WinnerOf(r: Outcome): (w: Option<Player>)
    ensures w.Some? <==> r.Won?
    ensures w.Some? ==> w.value == r.winner
  {
    if r.Won? then Some(r.winner) else None
  }

  /** The records `RunTurns` appends, read turn by turn: the loop appends one
      record per turn, and stops right after the first winning one, naming its
      guesser the winner. */
  lemma {:induction false} RunTurnsRecords(c: Check, g: Game, turnCount: nat, inputs: seq<string>)
    requires SecretsReady(c, g.player1, g.player2)
    ensures var r := RunTurns(c, g, turnCount, inputs);
            TurnsFrom(c, g.player1, g.player2, turnCount, r.game.history[|g.history|..], WinnerOf(r))
    decreases |inputs|
  {
    var p1, p2 := g.player1, g.player2;
    match Receive(c, inputs)
    case None =>
      assert RunTurns(c, g, turnCount, inputs).game.history[|g.history|..] == [];
    case Some(read) =>
      var rec := TurnRecordFor(c, p1, p2, turnCount, read.value);
      var g' := g.(history := g.history + [rec]);
      var r := RunTurns(c, g, turnCount, inputs);
      if TurnWon(rec) {
        assert r == Won(g', CurrentPlayerAndTargetSecret(p1, p2, turnCount).0);
        TurnsFromWinning(c, p1, p2, turnCount, rec, WinnerOf(r), r.game.history, g.history);
      } else {
        assert r == RunTurns(c, g', turnCount + 1, read.rest);
        RunTurnsRecords(c, g', turnCount + 1, read.rest);
        TurnsFromLosing(c, p1, p2, turnCount, rec, WinnerOf(r), r.game.history, g.history);
      }
  }

  /** The guesses a sequence of records holds, in order. */
  function Guesses(recs: seq<TurnRecord>): (gs: seq<string>)
    ensures |gs| == |recs|
    decreases |recs|
  {
    if |recs| == 0 then [] else [recs[0].guess] + Guesses(recs[1..])
  }

  lemma GuessesCons(rec: TurnRecord, recs: seq<TurnRecord>)
    ensures Guesses([rec] + recs) == [rec.guess] + Guesses(recs)
  {
    assert ([rec] + recs)[1..] == recs;
  }

  /** The records an outcome added to game `g` guess the lines `lines` in
      order, as far as they go; if input ran out, they guessed all of them. */
  predicate GuessesRead(g: Game, r: Outcome, lines: seq<string>)
    requires |g.history| <= |r.game.history|
  {
    && Guesses(r.game.history[|g.history|..]) <= lines
    && (r.InputEnded? ==> Guesses(r.game.history[|g.history|..]) == lines)
  }

  /** The loop consumes the accepted lines in order: the new records' guesses
      are the first accepted lines, and the loop ends without a winner only
      once every accepted line has been guessed. */
  lemma {:induction false} RunTurnsReadsValidLines(c: Check, g: Game, turnCount: nat, inputs: seq<string>)
    requires SecretsReady(c, g.player1, g.player2)
    ensures GuessesRead(g, RunTurns(c, g, turnCount, inputs), ValidLines(c, inputs))
    decreases |inputs|
  {
    ReceiveTakesFirstValidLine(c, inputs);
    match Receive(c, inputs)
    case None =>
      assert RunTurns(c, g, turnCount, inputs).game.history[|g.history|..] == [];
    case Some(read) =>
      var rec := TurnRecordFor(c, g.player1, g.player2, turnCount, read.value);
      var g' := g.(history := g.history + [rec]);
      if TurnWon(rec) {
        var r := RunTurns(c, g, turnCount, inputs);
        assert r == Won(g', CurrentPlayerAndTargetSecret(g.player1, g.player2, turnCount).0);
        GuessesReadFirst(g, g', rec, r, ValidLines(c, read.rest));
      } else {
        var r := RunTurns(c, g', turnCount + 1, read.rest);
        assert RunTurns(c, g, turnCount, inputs) == r;
        RunTurnsReadsValidLines(c, g', turnCount + 1, read.rest);
        GuessesReadStep(g, g', rec, r, ValidLines(c, read.rest));
      }
  }

  /** A game won by the first record added guessed just that record's line. */
  lemma GuessesReadFirst(g: Game, g': Game, rec: TurnRecord, r: Outcome, later: seq<string>)
    requires g'.history == g.history + [rec] && r.Won? && r.game == g'
    ensures GuessesRead(g, r, [rec.guess] + later)
  {
    assert r.game.history[|g.history|..] == [rec] + [];
    GuessesCons(rec, []);
  }

  /** One more record in front: if the records after `g'` read `later`, the
      records after `g`, one fewer, read `[rec.guess] + later`. */
  lemma GuessesReadStep(g: Game, g': Game, rec: TurnRecord, r: Outcome, later: seq<string>)
    requires g'.history == g.history + [rec]
    requires |g'.history| <= |r.game.history| && r.game.history[..|g'.history|] == g'.history
    requires GuessesRead(g', r, later)
    ensures GuessesRead(g, r, [rec.guess] + later)
  {
    GuessesAfterStep(r.game.history, g.history, rec, later, r.InputEnded?);
  }

  /** One more record in front: if the guesses after `pre + [rec]` start the
      lines `later`, then the guesses after `pre` start `[rec.guess] + later`. */
  lemma GuessesAfterStep(h: seq<TurnRecord>, pre: seq<TurnRecord>, rec: TurnRecord, later: seq<string>, ended: bool)
    requires |pre| + 1 <= |h| && h[..|pre| + 1] == pre + [rec]
    requires Guesses(h[|pre| + 1..]) <= later
    requires ended ==> Guesses(h[|pre| + 1..]) == later
    ensures Guesses(h[|pre|..]) <= [rec.guess] + later
    ensures ended ==> Guesses(h[|pre|..]) == [rec.guess] + later
  {
    SuffixAfterLast(h, pre, rec);
    GuessesCons(rec, h[|pre| + 1..]);
    ConsPrefix(rec.guess, Guesses(h[|pre| + 1..]), later);
  }

  /** `play`: `start_game` reads player1's secret, then player2's, then the
      turn loop runs from turn 0. Input ending before both secrets are in ends
      the game with no turn played. */
  function Play(c: Check, g: Game, inputs: seq<string>): (r: Outcome)
    ensures |g.history| <= |r.game.history| && r.game.history[..|g.history|] == g.history
    ensures r.Won? ==> SecretsReady(c, r.game.player1, r.game.player2)
    ensures !SecretsReady(c, r.game.player1, r.game.player2) ==> r.game.history == g.history
  {
    match GetSecret(c, g.player1, inputs)
    case None => InputEnded(g)
    case Some(first) =>
      match GetSecret(c, g.player2, first.1)
      case None => InputEnded(g.(player1 := first.0))
      case Some(second) => RunTurns(c, g.(player1 := first.0, player2 := second.0), 0, second.1)
  }

  /** `play` reads its input in order: the first two accepted lines become
      player1's and player2's secrets, the guesses that follow are the next
      accepted lines, and without a winner the game ends only once every
      accepted line has been used. */
  lemma PlayReadsInput(c: Check, g: Game, inputs: seq<string>)
    ensures var r := Play(c, g, inputs);
            var lines := ValidLines(c, inputs);
            && (|lines| < 2 ==> r.InputEnded? && r.game.history == g.history && r.game.player2 == g.player2)
            && (|lines| >= 1 ==> r.game.player1 == g.player1.(secret := Text(lines[0])))
            && (|lines| >= 2 ==>
                  && r.game.player2 == g.player2.(secret := Text(lines[1]))
                  && GuessesRead(g, r, lines[2..]))
  {
    var lines := ValidLines(c, inputs);
    match GetSecret(c, g.player1, inputs)
    case None =>
    case Some(first) =>
      match GetSecret(c, g.player2, first.1)
      case None =>
      case Some(second) =>
        var ready := g.(player1 := first.0, player2 := second.0);
        assert lines[1..][0] == lines[1];
        assert ValidLines(c, second.1) == lines[2..];
        RunTurnsReadsValidLines(c, ready, 0, second.1);
  }

  /** Starting from a new game, record k is turn k's, so the history length is
      the turn count; every turn before the last lost, and when the game is won
      the winner made the last, winning, guess. */
  lemma FreshGameHistory(c: Check, p1: Player, p2: Player, inputs: seq<string>)
    ensures var r := Play(c, NewGame(p1, p2), inputs);
            var h := r.game.history;
            var q1 := r.game.player1;
            var q2 := r.game.player2;
            SecretsReady(c, q1, q2) ==>
              && (forall k :: 0 <= k < |h| ==> TurnMatches(c, q1, q2, k, h[k]))
              && (forall k :: 0 <= k < |h| && !(r.Won? && k == |h| - 1) ==> TurnLost(h[k]))
              && (r.Won? ==> |h| > 0 && r.winner == CurrentPlayerAndTargetSecret(q1, q2, |h| - 1).0
                             && TurnWon(h[|h| - 1]))
  {
    var g := NewGame(p1, p2);
    match GetSecret(c, g.player1, inputs)
    case None =>
    case Some(first) =>
      match GetSecret(c, g.player2, first.1)
      case None =>
      case Some(second) =>
        var ready := g.(player1 := first.0, player2 := second.0);
        assert Play(c, g, inputs) == RunTurns(c, ready, 0, second.1);
        RunTurnsFromStart(c, ready, second.1);
  }

  /** The history of an outcome read turn by turn from turn 0: record k names
      turn k's guesser and holds a checked guess with its score, every turn
      before the last lost, and a winner made the last, winning, guess. */
  predicate HistoryReadsAsTurns(c: Check, p1: Player, p2: Player, r: Outcome)
    requires SecretsReady(c, p1, p2)
  {
    var h := r.game.history;
    && (forall k :: 0 <= k < |h| ==> TurnMatches(c, p1, p2, k, h[k]))
    && (forall k :: 0 <= k < |h| && !(r.Won? && k == |h| - 1) ==> TurnLost(h[k]))
    && (r.Won? ==> |h| > 0 && r.winner == CurrentPlayerAndTargetSecret(p1, p2, |h| - 1).0
                   && TurnWon(h[|h| - 1]))
  }

  /** The loop run from turn 0 on an empty history, read record by record. */
  lemma RunTurnsFromStart(c: Check, g: Game, inputs: seq<string>)
    requires SecretsReady(c, g.player1, g.player2) && |g.history| == 0
    ensures HistoryReadsAsTurns(c, g.player1, g.player2, RunTurns(c, g, 0, inputs))
  {
    RunTurnsRecords(c, g, 0, inputs);
    var r := RunTurns(c, g, 0, inputs);
    assert r.game.history[|g.history|..] == r.game.history;
    TurnsFromStart(c, g.player1, g.player2, r);
  }

  /** Records of a run from turn 0, read index by index. */
  lemma TurnsFromStart(c: Check, p1: Player, p2: Player, r: Outcome)
    requires SecretsReady(c, p1, p2) && TurnsFrom(c, p1, p2, 0, r.game.history, WinnerOf(r))
    ensures HistoryReadsAsTurns(c, p1, p2, r)
  {
    var h := r.game.history;
    var winner := WinnerOf(r);
    forall k | 0 <= k < |h|
      ensures TurnMatches(c, p1, p2, k, h[k])
      ensures !(winner.Some? && k == |h| - 1) ==> TurnLost(h[k])
    {
      TurnAt(c, p1, p2, h, winner, k);
    }
    if winner.Some? {
      LastTurnWon(c, p1, p2, h, winner);
    }
  }

  /** The last record of a won run from turn 0 is the winner's winning guess. */
  lemma LastTurnWon(c: Check, p1: Player, p2: Player, h: seq<TurnRecord>, winner: Option<Player>)
    requires SecretsReady(c, p1, p2) && TurnsFrom(c, p1, p2, 0, h, winner) && winner.Some?
    ensures |h| > 0 && winner.value == CurrentPlayerAndTargetSecret(p1, p2, |h| - 1).0
    ensures TurnMatches(c, p1, p2, |h| - 1, h[|h| - 1]) && TurnWon(h[|h| - 1])
  {
    RunFromWon(LostTurn(c, p1, p2), WonTurn(c, p1, p2, winner), 0, h, true);
    WonTurnFacts(c, p1, p2, winner, 0 + |h| - 1, h[|h| - 1]);
  }

  /** Record k of a run from turn 0, on its own. */
  lemma TurnAt(c: Check, p1: Player, p2: Player, h: seq<TurnRecord>, winner: Option<Player>, k: nat)
    requires SecretsReady(c, p1, p2) && TurnsFrom(c, p1, p2, 0, h, winner) && k < |h|
    ensures TurnMatches(c, p1, p2, k, h[k])
    ensures !(winner.Some? && k == |h| - 1) ==> TurnLost(h[k])
  {
    if winner.Some? && k == |h| - 1 {
      LastTurnWon(c, p1, p2, h, winner);
    } else {
      EarlierTurnLost(c, p1, p2, h, winner, k);
    }
  }

  /** A record of a run from turn 0 that is not the winning one lost. */
  lemma EarlierTurnLost(c: Check, p1: Player, p2: Player, h: seq<TurnRecord>, winner: Option<Player>, k: nat)
    requires SecretsReady(c, p1, p2) && TurnsFrom(c, p1, p2, 0, h, winner) && k < |h|
    requires !(winner.Some? && k == |h| - 1)
    ensures TurnMatches(c, p1, p2, k, h[k]) && TurnLost(h[k])
  {
    RunFromLost(LostTurn(c, p1, p2), WonTurn(c, p1, p2, winner), 0, h, winner.Some?);
    LostTurnFacts(c, p1, p2, 0 + k, h[k]);
  }
}
