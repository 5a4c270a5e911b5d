/** The scoring rule shared by both game classes (`calculate_score` and
    `is_game_over` have the same body in each), and the "+P, -D" text a turn
    record stores. */
module Scoring {
  import opened Wrappers
  import opened Decimal
  import opened Validation

  /** `(correct_digits, correct_positions)`, in the source's tuple order. */
  datatype Score = Score(digits: nat, positions: nat)

  /** One entry of a turn history: who guessed, the guess, and its score. The
      source stores the score as the text `FormatResult(result)`; that text and
      the score determine each other (`ResultRoundTrip`), so the record keeps
      the score itself. */
  datatype TurnRecord = TurnRecord(player: string, guess: string, result: Score)

  /** The scoring loop after its first n iterations: position i counts as a
      correct position when the characters agree, otherwise as a correct digit
      when the guessed character occurs anywhere in the secret. */
  function ScoreUpTo(guess: string, secret: string, n: nat): (r: Score)
    requires n <= 4 <= |guess| && 4 <= |secret|
    ensures r.positions + r.digits <= n
    decreases n
  {
    if n == 0 then Score(0, 0)
    else
      var prev := ScoreUpTo(guess, secret, n - 1);
      if guess[n - 1] == secret[n - 1] then prev.(positions := prev.positions + 1)
      else if guess[n - 1] in secret then prev.(digits := prev.digits + 1)
      else prev
  }

  /** `calculate_score(guess, secret)`. Python raises IndexError when either
      string is shorter than four characters; callers here rule that out. */
  function CalculateScore(guess: string, secret: string): (r: Score)
    requires |guess| >= 4 && |secret| >= 4
    ensures r.positions <= 4 && r.digits <= 4 && r.positions + r.digits <= 4
  {
    ScoreUpTo(guess, secret, 4)
  }

  /** After n iterations every position so far matched exactly when the first
      n characters agree. */
  lemma {:induction false} AllPositionsIffSamePrefix(guess: string, secret: string, n: nat)
    requires n <= 4 <= |guess| && 4 <= |secret|
    ensures ScoreUpTo(guess, secret, n).positions == n <==> guess[..n] == secret[..n]
    decreases n
  {
    if n > 0 {
      AllPositionsIffSamePrefix(guess, secret, n - 1);
      assert guess[..n] == guess[..n - 1] + [guess[n - 1]];
      assert secret[..n] == secret[..n - 1] + [secret[n - 1]];
    }
  }

  /** Four correct positions exactly when the guess agrees with the secret on
      the four compared characters; then no correct digit is counted. */
  lemma WinIffSamePrefix(guess: string, secret: string)
    requires |guess| >= 4 && |secret| >= 4
    ensures CalculateScore(guess, secret).positions == 4 <==> guess[..4] == secret[..4]
    ensures guess[..4] == secret[..4] ==> CalculateScore(guess, secret) == Score(0, 4)
  {
    AllPositionsIffSamePrefix(guess, secret, 4);
  }

  /** `is_game_over`: the game is won by a guess with four correct positions. */
  predicate IsGameOver(positions: nat) {
    positions == 4
  }

  /** For valid inputs, the winning score is reached exactly by the secret itself. */
  lemma ValidGuessWinsIffEqual(guess: string, secret: string)
    requires IsValidInput(guess) && IsValidInput(secret)
    ensures IsGameOver(CalculateScore(guess, secret).positions) <==> guess == secret
    ensures CalculateScore(secret, secret) == Score(0, 4)
  {
    WinIffSamePrefix(guess, secret);
    WinIffSamePrefix(secret, secret);
    assert guess[..4] == guess && secret[..4] == secret;
  }

  /** The digits two codes have in common. */
  function Common(a: string, b: string): set<char> {
    set c | c in a && c in b
  }

  /** With no repeated digit in the guess, every common digit is counted once:
      either as a correct position or as a correct digit. */
  lemma {:induction false} HitsAreCommonDigits(guess: string, secret: string, n: nat)
    requires n <= 4 <= |guess| && 4 <= |secret| && Distinct(guess[..4])
    ensures ScoreUpTo(guess, secret, n).positions + ScoreUpTo(guess, secret, n).digits
            == |Common(guess[..n], secret)|
    decreases n
  {
    if n == 0 {
      assert Common(guess[..0], secret) == {};
    } else {
      HitsAreCommonDigits(guess, secret, n - 1);
      var c := guess[n - 1];
      assert guess[..n] == guess[..n - 1] + [c];
      LaterDigitIsNew(guess, n);
      CommonSnocSize(guess[..n - 1], c, secret);
      var prev := ScoreUpTo(guess, secret, n - 1);
      var cur := ScoreUpTo(guess, secret, n);
      assert cur.positions + cur.digits == prev.positions + prev.digits + (if c in secret then 1 else 0);
    }
  }

  /** With no repeated digit among the first four, the digit at position n - 1
      does not occur before it. */
  lemma LaterDigitIsNew(guess: string, n: nat)
    requires 0 < n <= 4 <= |guess| && Distinct(guess[..4])
    ensures guess[n - 1] !in guess[..n - 1]
  {
    forall i | 0 <= i < n - 1
      ensures guess[i] != guess[n - 1]
    {
      assert guess[..4][i] == guess[i] && guess[..4][n - 1] == guess[n - 1];
    }
  }

  /** Appending one digit to a code adds it to the common digits exactly when
      the other code has it. */
  lemma CommonSnoc(a: string, c: char, b: string)
    ensures Common(a + [c], b) == if c in b then Common(a, b) + {c} else Common(a, b)
  {
  }

  /** A digit new to the code adds one common digit when the other code has it. */
  lemma CommonSnocSize(a: string, c: char, b: string)
    requires c !in a
    ensures |Common(a + [c], b)| == |Common(a, b)| + (if c in b then 1 else 0)
  {
    CommonSnoc(a, c, b);
    if c in b {
      assert c !in Common(a, b);
      assert |Common(a, b) + {c}| == |Common(a, b)| + 1;
    }
  }

  lemma {:induction false} PositionsSymmetric(guess: string, secret: string, n: nat)
    requires n <= 4 <= |guess| && 4 <= |secret|
    ensures ScoreUpTo(guess, secret, n).positions == ScoreUpTo(secret, guess, n).positions
    decreases n
  {
    if n > 0 {
      PositionsSymmetric(guess, secret, n - 1);
    }
  }

  /** For two valid codes, positions + digits is the number of shared digits. */
  lemma ScoreCountsCommonDigits(guess: string, secret: string)
    requires IsValidInput(guess) && IsValidInput(secret)
    ensures CalculateScore(guess, secret).positions + CalculateScore(guess, secret).digits
            == |Common(guess, secret)|
  {
    ValidInputCharacterization(guess);
    assert guess[..4] == guess;
    HitsAreCommonDigits(guess, secret, 4);
  }

  /** Scoring two valid codes does not depend on which is the guess. */
  lemma ScoreSymmetric(guess: string, secret: string)
    requires IsValidInput(guess) && IsValidInput(secret)
    ensures CalculateScore(guess, secret) == CalculateScore(secret, guess)
  {
    ScoreCountsCommonDigits(guess, secret);
    ScoreCountsCommonDigits(secret, guess);
    assert Common(guess, secret) == Common(secret, guess);
    PositionsSymmetric(guess, secret, 4);
  }

  /** With the check as written, "01235" and "01234" are both accepted, they
      denote different numbers, and yet the guess scores four correct positions,
      because only the first four characters are compared. */
  lemma PaddedGuessWins()
    ensures IsValidInputAsWritten("01235") && IsValidInputAsWritten("01234")
    ensures ParseInt("01235") != ParseInt("01234")
    ensures IsGameOver(CalculateScore("01235", "01234").positions)
  {
    PaddedCodeAccepted('1', '2', '3', '5');
    PaddedCodeAccepted('1', '2', '3', '4');
    assert ['0', '1', '2', '3', '5'] == "01235" && ['0', '1', '2', '3', '4'] == "01234";
    assert "01235"[..4] == "01234"[..4];
    WinIffSamePrefix("01235", "01234");
  }

  /** A valid code behind one '0' is accepted as written and parses to the code's value. */
  lemma PaddedCodeAccepted(a: char, b: char, c: char, d: char)
    requires '1' <= a <= '9' && IsDigit(b) && IsDigit(c) && IsDigit(d)
    requires a != b && a != c && a != d && b != c && b != d && c != d
    ensures IsValidInputAsWritten(['0', a, b, c, d])
    ensures ParseInt(['0', a, b, c, d]) == Some(Value([a, b, c, d]))
    ensures ToDecimal(Value([a, b, c, d])) == [a, b, c, d]
  {
    var t := [a, b, c, d];
    FourDistinctDigitsAccepted(a, b, c, d);
    PaddedInputAccepted(t, 1);
    assert Zeros(1) + t == ['0'] + t == ['0', a, b, c, d];
    LeadingZeroIgnored(t);
    CanonicalRoundTrip(t);
  }

  /** The text `f"+{correct_positions}, -{correct_digits}"`. */
  function FormatResult(score: Score): string {
    "+" + ToDecimal(score.positions) + ", -" + ToDecimal(score.digits)
  }

  /** Index of the first occurrence of c in t, or |t| when there is none. */
  function IndexOf(t: string, c: char): (k: nat)
    ensures k <= |t|
    ensures k < |t| ==> t[k] == c
    ensures forall j :: 0 <= j < k ==> t[j] != c
  {
    if |t| == 0 then 0
    else if t[0] == c then 0
    else 1 + IndexOf(t[1..], c)
  }

  /** Reads a "+P, -D" text back into the score it reports. */
  function ParseResult(t: string): Option<Score> {
    if |t| == 0 || t[0] != '+' then None
    else
      var body := t[1..];
      var k := IndexOf(body, ',');
      if k + 3 <= |body| && body[k..k + 3] == ", -" then
        var p := body[..k];
        var d := body[k + 3..];
        if |p| > 0 && AllDigits(p) && |d| > 0 && AllDigits(d) then Some(Score(Value(d), Value(p)))
        else None
      else None
  }

  /** A turn record's result text determines the score it was made from. */
  lemma ResultRoundTrip(score: Score)
    ensures ParseResult(FormatResult(score)) == Some(score)
  {
    var t := FormatResult(score);
    var p := ToDecimal(score.positions);
    var d := ToDecimal(score.digits);
    var body := t[1..];
    assert body == p + ", -" + d;
    var k := IndexOf(body, ',');
    assert body[|p|] == ',';
    assert forall j :: 0 <= j < |p| ==> body[j] == p[j];
    assert k == |p|;
    assert body[..k] == p;
    assert body[k..k + 3] == ", -";
    assert body[k + 3..] == d;
    ToDecimalValue(score.positions);
    ToDecimalValue(score.digits);
  }
}
