/** The input check shared by secrets and guesses: `GuessSecretGame.is_valid_input`
    and `GuessPlayer.is_valid_secret` have the same body. */
module Validation {
  import opened Wrappers
  import opened Decimal

  /** Python's `int(s)` on the inputs this model admits: a non-empty ASCII digit
      string parses; anything else raises ValueError, here `None`. */
  function ParseInt(s: string): Option<nat>
  {
    if |s| > 0 && AllDigits(s) then Some(Value(s)) else None
  }

  predicate Distinct(s: string) {
    forall i, j :: 0 <= i < j < |s| ==> s[i] != s[j]
  }

  /** The check exactly as the source writes it: the parsed value lies in
      [1000, 9999] and the digits of `str(value)` are pairwise distinct
      (`int(d)` is one-to-one on digit characters, so comparing the characters
      is the same as comparing their values). The raw length is never checked. */
  predicate IsValidInputAsWritten(s: string) {
    match ParseInt(s)
    case None => false
    case Some(v) => 1000 <= v <= 9999 && Distinct(ToDecimal(v))
  }

  /** The check as the game needs it: a four-character input. Secrets and
      guesses are validated with this predicate in the rest of the model. */
  predicate IsValidInput(s: string) {
    |s| == 4 && IsValidInputAsWritten(s)
  }

  /** What a valid secret or guess looks like, character by character. */
  predicate IsFourDistinctDigits(s: string) {
    |s| == 4 && AllDigits(s) && s[0] != '0' && Distinct(s)
  }

  /** `is_valid_input` accepts exactly the four-digit strings with no leading zero
      and no repeated digit. */
  lemma ValidInputCharacterization(s: string)
    ensures IsValidInput(s) <==> IsFourDistinctDigits(s)
  {
    if |s| == 4 && AllDigits(s) {
      if s[0] == '0' {
        LeadingZeroIgnored(s[1..]);
        assert ['0'] + s[1..] == s;
        ValueBelowPow10(s[1..]);
        assert Pow10(3) == 1000;
      } else {
        ValueAtLeastPow10(s);
        ValueBelowPow10(s);
        CanonicalRoundTrip(s);
      }
    }
  }

  /** The examples the game's messages describe: a repeated digit, a value below
      1000 and a non-numeric string are rejected; "1234" is accepted. */
  lemma RejectedExamples()
    ensures !IsValidInput("1123")
    ensures !IsValidInput("0123")
    ensures !IsValidInput("12a4")
    ensures IsValidInput("1234") && IsValidInput("5678")
  {
    ValidInputCharacterization("1123");
    assert "1123"[0] == "1123"[1];
    LeadingZeroRejected("0123");
    assert !IsDigit("12a4"[2]);
    FourDistinctDigitsAccepted('1', '2', '3', '4');
    FourDistinctDigitsAccepted('5', '6', '7', '8');
  }

  lemma FourDistinctDigitsAccepted(a: char, b: char, c: char, d: char)
    requires '1' <= a <= '9' && IsDigit(b) && IsDigit(c) && IsDigit(d)
    requires a != b && a != c && a != d && b != c && b != d && c != d
    ensures IsValidInput([a, b, c, d])
  {
    ValidInputCharacterization([a, b, c, d]);
  }

  /** Inputs that `int()` cannot parse are rejected instead of raising. */
  lemma NonNumericRejected(s: string)
    requires exists i :: 0 <= i < |s| && !IsDigit(s[i])
    ensures !IsValidInputAsWritten(s) && !IsValidInput(s)
  {
  }

  /** A four-character input with a leading '0' denotes a value below 1000. */
  lemma LeadingZeroRejected(s: string)
    requires |s| == 4 && s[0] == '0'
    ensures !IsValidInput(s)
  {
    ValidInputCharacterization(s);
  }

  function Zeros(k: nat): (z: string)
    ensures |z| == k && forall i :: 0 <= i < k ==> z[i] == '0'
  {
    if k == 0 then [] else ['0'] + Zeros(k - 1)
  }

  /** As written, the check accepts a valid input behind any number of '0's. */
  lemma {:induction false} PaddedInputAccepted(t: string, k: nat)
    requires IsValidInput(t)
    ensures IsValidInputAsWritten(Zeros(k) + t)
    ensures |Zeros(k) + t| == k + 4
    ensures Zeros(k) + t != t <==> k > 0
    decreases k
  {
    if k > 0 {
      PaddedInputAccepted(t, k - 1);
      var u := Zeros(k - 1) + t;
      assert Zeros(k) + t == ['0'] + u;
      LeadingZeroParses(u);
      SameParseSameVerdict(['0'] + u, u);
    } else {
      assert Zeros(k) + t == t;
    }
  }

  /** `int()` ignores a leading '0' in front of a digit string. */
  lemma LeadingZeroParses(u: string)
    requires ParseInt(u).Some?
    ensures ParseInt(['0'] + u) == ParseInt(u)
  {
    LeadingZeroIgnored(u);
  }

  /** The check as written depends only on the parsed value. */
  lemma SameParseSameVerdict(a: string, b: string)
    requires ParseInt(a) == ParseInt(b)
    ensures IsValidInputAsWritten(a) == IsValidInputAsWritten(b)
  {
  }

  /** As written, every accepted input has at least four characters, so the
      scoring loop's `guess[i]` for i < 4 never fails on an accepted guess. */
  lemma AcceptedHasFourCharacters(s: string)
    ensures IsValidInputAsWritten(s) ==> |s| >= 4
  {
    if ParseInt(s).Some? {
      ValueBelowPow10(s);
      Pow10UpToThree(|s|);
    }
  }

  lemma Pow10UpToThree(n: nat)
    ensures n <= 3 ==> Pow10(n) <= 1000
  {
  }

  /** As written, the check accepts exactly the valid four-character codes
      behind zero or more '0's: `PaddedInputAccepted` and its converse. */
  lemma AsWrittenCharacterization(s: string)
    ensures IsValidInputAsWritten(s) <==>
              |s| >= 4 && s[..|s| - 4] == Zeros(|s| - 4) && IsValidInput(s[|s| - 4..])
  {
    if IsValidInputAsWritten(s) {
      AcceptedIsPadded(s);
    }
    if |s| >= 4 && s[..|s| - 4] == Zeros(|s| - 4) && IsValidInput(s[|s| - 4..]) {
      PaddedInputAccepted(s[|s| - 4..], |s| - 4);
      assert Zeros(|s| - 4) + s[|s| - 4..] == s;
    }
  }

  /** An input accepted as written is a valid code behind some '0's. */
  lemma AcceptedIsPadded(s: string)
    requires IsValidInputAsWritten(s)
    ensures |s| >= 4 && s[..|s| - 4] == Zeros(|s| - 4) && IsValidInput(s[|s| - 4..])
  {
    AcceptedHasFourCharacters(s);
    ZerosBeforeLastFour(s);
    LastFourSameParse(s);
    SameParseSameVerdict(s[|s| - 4..], s);
  }

  /** A number below 10000 written with four or more digits starts with '0's
      up to its last four digits. */
  lemma ZerosBeforeLastFour(s: string)
    requires |s| >= 4 && AllDigits(s) && Value(s) < 10000
    ensures s[..|s| - 4] == Zeros(|s| - 4)
  {
    Pow10Four();
    HighDigitsZero(s, 4);
  }

  /** A number below 10000 written with four or more digits parses the same
      from its last four digits. */
  lemma LastFourSameParse(s: string)
    requires |s| >= 4 && AllDigits(s) && Value(s) < 10000
    ensures ParseInt(s[|s| - 4..]) == ParseInt(s)
  {
    Pow10Four();
    HighDigitsZero(s, 4);
  }

  lemma Pow10Four()
    ensures Pow10(4) == 10000
  {
  }

  /** A digit string denoting less than 10^m starts with '0's up to its last m
      characters, which denote the same number. */
  lemma {:induction false} HighDigitsZero(s: string, m: nat)
    requires AllDigits(s) && m <= |s| && Value(s) < Pow10(m)
    ensures s[..|s| - m] == Zeros(|s| - m)
    ensures AllDigits(s[|s| - m..]) && Value(s[|s| - m..]) == Value(s)
    decreases |s| - m
  {
    if |s| > m {
      if s[0] != '0' {
        ValueAtLeastPow10(s);
        Pow10Monotone(m, |s| - 1);
        assert false;
      }
      var u := s[1..];
      assert s == ['0'] + u;
      LeadingZeroIgnored(u);
      HighDigitsZero(u, m);
      assert s[..|s| - m] == ['0'] + u[..|u| - m];
      assert s[|s| - m..] == u[|u| - m..];
    } else {
      assert s[|s| - m..] == s;
    }
  }

  lemma {:induction false} Pow10Monotone(a: nat, b: nat)
    requires a <= b
    ensures Pow10(a) <= Pow10(b)
    decreases b
  {
    if a < b {
      Pow10Monotone(a, b - 1);
    }
  }

  /** Which form of the input check a prompting loop or `play` applies: the
      source's (`AsWritten`) or the four-character one (`Corrected`). */
  datatype Check = AsWritten | Corrected

  /** The verdict of the chosen check. Either form accepts only inputs of at
      least four characters, the ones the scoring loop can index. */
  predicate Accepts(c: Check, s: string)
    ensures Accepts(c, s) ==> |s| >= 4
  {
    AcceptedHasFourCharacters(s);
    match c
    case AsWritten => IsValidInputAsWritten(s)
    case Corrected => IsValidInput(s)
  }
}
