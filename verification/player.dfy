/** `GuessPlayer`: a named participant with a secret, and its two prompting
    loops. Console input is a supplied sequence of lines; running out of lines
    stands for `input()` raising EOFError. */
module GuessPlayer {
  import opened Wrappers
  import opened Validation

  /** What the `secret` and `guess` attributes hold: the integer 0 the
      constructor stores, or a string read from input. */
  datatype Slot = Zero | Text(text: string)

  /** Python truthiness of a slot: 0 and "" are false. */
  predicate Truthy(v: Slot) {
    v.Text? && |v.text| > 0
  }

  /** A player. `id` stands for the object's identity, which is what
      `list.remove` compares players by; `sid` is the transport handle. */
  datatype Player = Player(id: nat, name: string, sid: string, gameId: string,
                           score: int, secret: Slot, guess: Slot)

  /** `GuessPlayer(name, socket, game_id)`: score, guess and secret all start at
      0, so a new player's secret counts as not set. */
  function NewGuessPlayer(id: nat, name: string, sid: string, gameId: string): (p: Player)
    ensures p.id == id && p.name == name && p.sid == sid && p.gameId == gameId
    ensures p.score == 0 && !Truthy(p.secret) && !Truthy(p.guess)
  {
    Player(id, name, sid, gameId, 0, Zero, Zero)
  }

  /** The input lines the check accepts, in order: the lines a run of
      prompting loops settles on, one per call. */
  function ValidLines(c: Check, inputs: seq<string>): (v: seq<string>)
    ensures |v| <= |inputs|
    decreases |inputs|
  {
    if |inputs| == 0 then []
    else if Accepts(c, inputs[0]) then [inputs[0]] + ValidLines(c, inputs[1..])
    else ValidLines(c, inputs[1..])
  }

  /** The line a prompting loop settles on and the input left after it. */
  datatype Read = Read(value: string, rest: seq<string>)

  /** No line of `lines` passes the check. */
  predicate NoneAccepted(c: Check, lines: seq<string>)
    decreases |lines|
  {
    |lines| == 0 || (!Accepts(c, lines[0]) && NoneAccepted(c, lines[1..]))
  }

  /** `receive`: read lines until one passes the check, and return it: the
      first accepted line, after skipping only rejected ones. */
  function Receive(c: Check, inputs: seq<string>): (r: Option<Read>)
    ensures r.None? <==> NoneAccepted(c, inputs)
    ensures r.Some? ==>
              var used := |inputs| - |r.value.rest|;
              && 0 < used <= |inputs|
              && inputs[used - 1] == r.value.value
              && inputs[used..] == r.value.rest
              && Accepts(c, r.value.value)
              && NoneAccepted(c, inputs[..used - 1])
    decreases |inputs|
  {
    if |inputs| == 0 then None
    else if Accepts(c, inputs[0]) then
      assert inputs[..0] == [];
      Some(Read(inputs[0], inputs[1..]))
    else
      var r := Receive(c, inputs[1..]);
      if r.Some? then
        var used := |inputs| - |r.value.rest|;
        assert inputs[..used - 1][1..] == inputs[1..][..used - 2];
        r
      else r
  }

  /** `receive` returns the first accepted line, and the accepted lines after
      it are exactly the ones still to come. */
  lemma {:induction false} ReceiveTakesFirstValidLine(c: Check, inputs: seq<string>)
    ensures Receive(c, inputs).None? <==> ValidLines(c, inputs) == []
    ensures Receive(c, inputs).Some? ==>
              ValidLines(c, inputs) == [Receive(c, inputs).value.value] + ValidLines(c, Receive(c, inputs).value.rest)
    decreases |inputs|
  {
    if |inputs| > 0 && !Accepts(c, inputs[0]) {
      ReceiveTakesFirstValidLine(c, inputs[1..]);
    }
  }

  /** `get_secret`: read lines until one passes the check and store it as the
      player's secret; nothing else about the player changes. The secret is
      the first accepted line, and input is consumed up to it and no further. */
  function GetSecret(c: Check, p: Player, inputs: seq<string>): (r: Option<(Player, seq<string>)>)
    ensures r.None? <==> ValidLines(c, inputs) == []
    ensures r.Some? ==>
              var used := |inputs| - |r.value.1|;
              && 0 < used <= |inputs| && inputs[used..] == r.value.1
              && NoneAccepted(c, inputs[..used - 1])
              && r.value.0 == p.(secret := Text(ValidLines(c, inputs)[0]))
              && inputs[used - 1] == ValidLines(c, inputs)[0]
              && ValidLines(c, r.value.1) == ValidLines(c, inputs)[1..]
  {
    ReceiveTakesFirstValidLine(c, inputs);
    match Receive(c, inputs)
    case None => None
    case Some(read) => Some((p.(secret := Text(read.value)), read.rest))
  }
}
