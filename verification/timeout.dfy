/** `utils.check_game_timeout`: the server's periodic sweep that drops every
    game idle for longer than the timeout. The clock is a parameter (`now`),
    and times and durations are whole numbers of a fixed unit, so `now -
    lastPlayedAt > timeout` is the source's comparison of a timedelta. */
module Timeout {
  import opened GuessSecretGame

  /** A game is dropped once its idle time exceeds the timeout. */
  predicate TimedOut(game: Session, now: int, timeout: int) {
    now - game.lastPlayedAt > timeout
  }

  /** The games the sweep keeps: the ones that have not timed out, unchanged. */
  function Swept(games: map<string, Session>, now: int, timeout: int): (r: map<string, Session>)
    ensures r.Keys <= games.Keys
    ensures forall id :: id in r ==> r[id] == games[id] && !TimedOut(games[id], now, timeout)
  {
    map id | id in games && !TimedOut(games[id], now, timeout) :: games[id]
  }

  /** The sweep: iterate over a snapshot of the game ids and delete each timed
      out entry from the dictionary. Which ids go depends only on each game's
      own last activity, so the order of the iteration does not matter. */
  method CheckGameTimeout(games: map<string, Session>, now: int, timeout: int) returns (r: map<string, Session>)
    ensures forall id :: id in r <==> id in games && !TimedOut(games[id], now, timeout)
    ensures forall id :: id in r ==> r[id] == games[id]
    ensures r == Swept(games, now, timeout)
  {
    var pending := games.Keys;
    r := games;
    while pending != {}
      invariant pending <= games.Keys
      invariant forall id :: id in r <==> id in games && (id in pending || !TimedOut(games[id], now, timeout))
      invariant forall id :: id in r ==> r[id] == games[id]
      decreases pending
    {
      var id :| id in pending;
      if TimedOut(games[id], now, timeout) {
        r := r - {id};
      }
      pending := pending - {id};
    }
  }

  /** A second sweep at the same instant drops nothing more. */
  lemma SweepIdempotent(games: map<string, Session>, now: int, timeout: int)
    ensures Swept(Swept(games, now, timeout), now, timeout) == Swept(games, now, timeout)
  {
  }

  /** As the clock advances, the set of surviving games can only shrink. */
  lemma SweepShrinksOverTime(games: map<string, Session>, now: int, later: int, timeout: int)
    requires now <= later
    ensures Swept(games, later, timeout).Keys <= Swept(games, now, timeout).Keys
  {
  }

  /** A game played at most `timeout` ago survives the sweep, unchanged. */
  lemma RecentGameSurvives(games: map<string, Session>, id: string, now: int, timeout: int)
    requires id in games && now - games[id].lastPlayedAt <= timeout
    ensures id in Swept(games, now, timeout) && Swept(games, now, timeout)[id] == games[id]
  {
  }

  /** Whether a game survives depends on that game alone: adding or replacing
      another entry does not change the verdict on the others. */
  lemma SweepLocal(games: map<string, Session>, id: string, game: Session, now: int, timeout: int)
    ensures forall other :: other != id ==>
              (other in Swept(games[id := game], now, timeout) <==> other in Swept(games, now, timeout))
  {
  }
}
