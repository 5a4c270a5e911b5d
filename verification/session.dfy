/** `GuessSecretGame`: the two-player session driven by the server. It keeps a
    list of at most two players and an append-only turn history; `play` scores a
    guess against the opponent's secret. The class does not enforce turn order
    and keeps no game-over state. */
module GuessSecretGame {
  import opened Wrappers
  import opened Validation
  import opened Scoring
  import opened GuessPlayer

  /** The session's state. `lastPlayedAt` is read by the timeout sweep; no
      operation of the class changes it. */
  datatype Session = Session(players: seq<Player>, history: seq<TurnRecord>, lastPlayedAt: int)

  /** The exceptions the class raises: ValueError("Game is full"), the
      ValueError of `list.remove`, the three InputErrors of `play`, and the
      IndexError `calculate_score` hits on a secret shorter than four characters. */
  datatype SessionError = GameFull | PlayerNotFound | NotReady | InvalidGuess | NotYourTurn | SecretTooShort

  /** A session with no players and no history. */
  function NewSession(lastPlayedAt: int): (s: Session)
    ensures |s.players| == 0 && |s.history| == 0 && s.lastPlayedAt == lastPlayedAt
    ensures Player1(s).None? && Player2(s).None? && !IsOkayStart(s)
  {
    Session([], [], lastPlayedAt)
  }

  /** `add_player`: refused when two players are present, else appended last. */
  function AddPlayer(s: Session, p: Player): (r: Result<Session, SessionError>)
    ensures |s.players| == 2 <==> r == Err(GameFull)
    ensures r.Ok? ==> r.value == s.(players := s.players + [p])
    ensures r.Ok? && |s.players| < 2 ==> |r.value.players| <= 2
  {
    if |s.players| == 2 then Err(GameFull)
    else Ok(s.(players := s.players + [p]))
  }

  /** Index of the first player with this identity, or the list's length. */
  function FirstIndexOf(players: seq<Player>, id: nat): (i: nat)
    ensures i <= |players|
    ensures i < |players| ==> players[i].id == id
    ensures forall j :: 0 <= j < i ==> players[j].id != id
  {
    if |players| == 0 then 0
    else if players[0].id == id then 0
    else 1 + FirstIndexOf(players[1..], id)
  }

  /** `remove_player`: `list.remove` deletes the first occurrence of the player
      and keeps the others in order; an absent player raises ValueError. */
  function RemovePlayer(s: Session, p: Player): (r: Result<Session, SessionError>)
    ensures r.Err? <==> forall j :: 0 <= j < |s.players| ==> s.players[j].id != p.id
    ensures r.Err? ==> r.error == PlayerNotFound
    ensures r.Ok? ==>
              var i := FirstIndexOf(s.players, p.id);
              && i < |s.players|
              && r.value == s.(players := s.players[..i] + s.players[i + 1..])
  {
    var i := FirstIndexOf(s.players, p.id);
    if i == |s.players| then Err(PlayerNotFound)
    else Ok(s.(players := s.players[..i] + s.players[i + 1..]))
  }

  /** The `player1` property: the first player, or None when there is none. */
  function Player1(s: Session): (r: Option<Player>)
    ensures r.Some? <==> |s.players| > 0
    ensures r.Some? ==> r.value == s.players[0]
  {
    if |s.players| == 0 then None else Some(s.players[0])
  }

  /** The `player2` property: the second player, or None when there is none. */
  function Player2(s: Session): (r: Option<Player>)
    ensures r.Some? <==> |s.players| > 1
    ensures r.Some? ==> r.value == s.players[1]
  {
    if |s.players| > 1 then Some(s.players[1]) else None
  }

  /** `is_okay_start`: two players, and both secrets set (truthy). */
  predicate IsOkayStart(s: Session) {
    |s.players| == 2 && forall i :: 0 <= i < |s.players| ==> Truthy(s.players[i].secret)
  }

  /** `get_current_player_and_target_secret(username)`: the first player if its
      name matches, otherwise the second, whatever its name; paired with the
      other player's secret. */
  function CurrentPlayerAndTargetSecret(s: Session, username: string): (r: (Player, Slot))
    requires |s.players| >= 2
    ensures s.players[0].name == username ==> r == (s.players[0], s.players[1].secret)
    ensures s.players[0].name != username ==> r == (s.players[1], s.players[0].secret)
    ensures r.0.name == username <==> s.players[0].name == username || s.players[1].name == username
  {
    if Player1(s).value.name == username then (Player1(s).value, Player2(s).value.secret)
    else (Player2(s).value, Player1(s).value.secret)
  }

  /** What an accepted guess returns: the new state, and the winner or None. */
  datatype Outcome = Outcome(session: Session, winner: Option<Player>)

  /** The session is ready and `username` names one of its two players. */
  predicate KnownGuesser(s: Session, username: string) {
    IsOkayStart(s) && (s.players[0].name == username || s.players[1].name == username)
  }

  /** The secret the named player guesses: the other player's. */
  function TargetOf(s: Session, username: string): (t: string)
    requires KnownGuesser(s, username)
    ensures Truthy(s.players[0].secret) && Truthy(s.players[1].secret)
    ensures t == s.players[if s.players[0].name == username then 1 else 0].secret.text
  {
    assert Truthy(s.players[0].secret) && Truthy(s.players[1].secret);
    if s.players[0].name == username then s.players[1].secret.text else s.players[0].secret.text
  }

  /** `play(username, guess)` with the given form of the input check. Checks
      readiness, then the guess, then the guesser, then scores against the
      opponent's secret and appends one record. The guesser wins when every
      position matches. Each error is returned exactly when its check is the
      first to fail, and a guess that passes them all is accepted. */
  function Play(c: Check, s: Session, username: string, guess: string): (r: Result<Outcome, SessionError>)
    ensures !IsOkayStart(s) <==> r == Err(NotReady)
    ensures IsOkayStart(s) && !Accepts(c, guess) <==> r == Err(InvalidGuess)
    ensures IsOkayStart(s) && Accepts(c, guess) && !KnownGuesser(s, username) <==> r == Err(NotYourTurn)
    ensures KnownGuesser(s, username) && Accepts(c, guess) && |TargetOf(s, username)| < 4
            <==> r == Err(SecretTooShort)
    ensures KnownGuesser(s, username) && Accepts(c, guess) && |TargetOf(s, username)| >= 4 <==> r.Ok?
    ensures r.Ok? ==>
              var me := if s.players[0].name == username then 0 else 1;
              var target := TargetOf(s, username);
              && r.value.session
                 == s.(history := s.history + [TurnRecord(username, guess, CalculateScore(guess, target))])
              && (r.value.winner == Some(s.players[me]) <==> guess[..4] == target[..4])
              && (r.value.winner == None <==> guess[..4] != target[..4])
  {
    if !IsOkayStart(s) then Err(NotReady)
    else if !Accepts(c, guess) then Err(InvalidGuess)
    else
      var turn := CurrentPlayerAndTargetSecret(s, username);
      var current := turn.0;
      var secret := turn.1;
      assert Truthy(s.players[0].secret) && Truthy(s.players[1].secret);
      if current.name != username then Err(NotYourTurn)
      else if |secret.text| < 4 then Err(SecretTooShort)
      else
        var score := CalculateScore(guess, secret.text);
        WinIffSamePrefix(guess, secret.text);
        var record := TurnRecord(current.name, guess, score);
        var s' := s.(history := s.history + [record]);
        if IsGameOver(score.positions) then Ok(Outcome(s', Some(current)))
        else Ok(Outcome(s', None))
  }

  /** With the check as written, a session whose first player chose "01234"
      is won by the second player's guess "01235", a different number; the
      corrected check refuses that guess. */
  lemma PaddedGuessWinsSession(a: Player, b: Player)
    requires a.name == "A" && a.secret == Text("01234")
    requires b.name == "B" && b.secret == Text("5678")
    ensures var s := Session([a, b], [], 0);
            && Play(AsWritten, s, "B", "01235")
               == Ok(Outcome(s.(history := [TurnRecord("B", "01235", Score(0, 4))]), Some(b)))
            && Play(Corrected, s, "B", "01235") == Err(InvalidGuess)
  {
    var s := Session([a, b], [], 0);
    PaddedGuessWins();
    AcceptedHasFourCharacters("01235");
    assert "01235"[..4] == "01234"[..4];
    WinIffSamePrefix("01235", "01234");
    assert Accepts(AsWritten, "01235");
    assert "A" != "B";
    assert IsOkayStart(s);
    assert TargetOf(s, "B") == "01234";
    assert CalculateScore("01235", "01234") == Score(0, 4);
    assert s.history + [TurnRecord("B", "01235", Score(0, 4))] == [TurnRecord("B", "01235", Score(0, 4))];
  }

  /** Adding players never takes a session past two. */
  lemma AddPlayerKeepsAtMostTwo(s: Session, p: Player)
    requires |s.players| <= 2
    ensures AddPlayer(s, p).Ok? ==> |AddPlayer(s, p).value.players| <= 2
    ensures AddPlayer(s, p).Err? ==> |s.players| == 2
  {
  }

  /** Removing a player that was just added restores the session. */
  lemma {:induction false} AddThenRemove(s: Session, p: Player)
    requires forall j :: 0 <= j < |s.players| ==> s.players[j].id != p.id
    requires |s.players| < 2
    ensures AddPlayer(s, p).Ok?
    ensures RemovePlayer(AddPlayer(s, p).value, p) == Ok(s)
  {
    var t := AddPlayer(s, p).value;
    var i := FirstIndexOf(t.players, p.id);
    assert t.players[|s.players|].id == p.id;
    assert i == |s.players|;
    assert t.players[..i] == s.players && t.players[i + 1..] == [];
    assert t.players[..i] + t.players[i + 1..] == s.players;
  }

  /** Two freshly constructed players are not ready to play: their secrets are 0. */
  lemma FreshPlayersNotReady(c: Check, a: Player, b: Player, t: int, g: string)
    requires a == NewGuessPlayer(a.id, a.name, a.sid, a.gameId)
    requires b == NewGuessPlayer(b.id, b.name, b.sid, b.gameId)
    ensures AddPlayer(NewSession(t), a).Ok?
    ensures AddPlayer(AddPlayer(NewSession(t), a).value, b).Ok?
    ensures !IsOkayStart(AddPlayer(AddPlayer(NewSession(t), a).value, b).value)
    ensures Play(c, AddPlayer(AddPlayer(NewSession(t), a).value, b).value, a.name, g) == Err(NotReady)
  {
    var s := AddPlayer(AddPlayer(NewSession(t), a).value, b).value;
    assert s.players[0] == a;
  }

  /** Accepting a guess does not depend on the history: the same player may
      play again straight away, even after a winning guess. Turn order is not
      enforced and a won game keeps accepting guesses. */
  lemma PlayIgnoresTurnOrder(c: Check, s: Session, username: string, guess: string, next: string)
    requires Play(c, s, username, guess).Ok?
    requires Accepts(c, next)
    ensures Play(c, Play(c, s, username, guess).value.session, username, next).Ok?
  {
    var s' := Play(c, s, username, guess).value.session;
    assert s'.players == s.players;
  }

  /** An accepted guess never changes the players or the activity time, and
      grows the history by exactly one record. */
  lemma PlayAppendsOnly(c: Check, s: Session, username: string, guess: string)
    requires Play(c, s, username, guess).Ok?
    ensures Play(c, s, username, guess).value.session.players == s.players
    ensures Play(c, s, username, guess).value.session.lastPlayedAt == s.lastPlayedAt
    ensures |Play(c, s, username, guess).value.session.history| == |s.history| + 1
    ensures Play(c, s, username, guess).value.session.history[..|s.history|] == s.history
  {
    var h := Play(c, s, username, guess).value.session.history;
    assert h[..|s.history|] == s.history;
  }
}
