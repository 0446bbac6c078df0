/** A model of the game's state machine: the secret number and the attempt
    counter that the page's handlers update in place, and the parts of the page
    they change (the guess field's text and enabled state, the submit control's
    enabled state, the restart control's visibility and the message shown).

    Math.floor(Math.random() * 20) is the integer parameter r, 0 <= r < 20, so the
    secret is r + 1.  Typing into the guess field is the method SetInput; a click
    or a touch on the submit control, or the Enter key in the guess field, is a
    call of Submit, and a click or a touch on the restart control is a call of
    Restart.  The model assumes that Submit is called only while the controls are
    enabled. */
module GuessingGame {
  import opened MobileInput

  /** The range of the secret number and of an accepted guess. */
  const Smallest := 1
  const Largest := 20

  /** What the result area shows; each kind has its own text and colour. */
  datatype Message =
    | Welcome                              // the invitation shown when the page loads
    | Prompt                               // the invitation shown after a restart
    | Error                                // the guess was not a number in [1, 20]
    | TooLow(guess: int)                   // the guess, echoed, was below the secret
    | TooHigh(guess: int)                  // the guess, echoed, was above the secret
    | Win(secret: int, attempts: nat)      // the secret and the number of attempts it took

  /** The guard that rejects a submission: the raw text is empty, is not a
      number, or is a number outside [Smallest, Largest]. */
  predicate IsRejected(raw: string) {
    var guess := ParseIntegerFromMobile(raw);
    raw == "" || guess.None? || guess.value < Smallest || guess.value > Largest
  }

  /** A submission is accepted exactly when the first integer of its text, once
      the no-break spaces are deleted, lies in [1, 20]. */
  lemma AcceptedIffFirstIntegerInRange(raw: string)
    ensures !IsRejected(raw) <==>
      var n := FirstInteger(DeleteNoBreakSpaces(raw)); n.Some? && Smallest <= n.value <= Largest
  {
    ParseIsFirstInteger(raw);
    if raw == "" {
      ParseNoneIffNoDigit(raw);
    }
  }

  /** Text with no digit in it is always rejected: "", "abc", "   ". */
  lemma NoDigitRejected(raw: string)
    requires NoDigit(raw)
    ensures IsRejected(raw)
  {
    ParseNoneIffNoDigit(raw);
  }

  /** The decimal notation of n is accepted exactly when n lies in [1, 20]
      (0, 21 and -5 are rejected), and then it is read as n. */
  lemma DecimalGuess(n: int)
    ensures !IsRejected(DecimalString(n)) <==> Smallest <= n <= Largest
    ensures ParseIntegerFromMobile(DecimalString(n)) == Some(n)
  {
    ParseDecimalString(n);
  }

  class Game {
    /** nombreSecret */
    var secret: int
    /** compteurTentatives */
    var attempts: nat
    /** The guess field's text, and whether the field is disabled. */
    var inputValue: string
    var inputDisabled: bool
    /** Whether the submit control is disabled, and whether restart is shown. */
    var submitDisabled: bool
    var restartVisible: bool
    /** The message in the result area. */
    var message: Message

    /** The game is over: a correct guess was made and no restart has followed. */
    predicate Finished()
      reads this
    {
      submitDisabled
    }

    /** What holds between handlers: the secret is in range; the two controls
        and the restart button move together, and they are in the finished
        position exactly when the message is a win; what the message echoes
        agrees with the state. */
    ghost predicate Valid()
      reads this
    {
      && Smallest <= secret <= Largest
      && inputDisabled == submitDisabled == restartVisible
      && (restartVisible <==> message.Win?)
      && (message.Win? ==> message.secret == secret && message.attempts == attempts >= 1)
      && (message.TooLow? ==> Smallest <= message.guess < secret && attempts >= 1)
      && (message.TooHigh? ==> secret < message.guess <= Largest && attempts >= 1)
      && (message.Welcome? || message.Prompt? ==> attempts == 0)
    }

    /** The page as it loads: a fresh secret, no attempt, the restart control
        hidden and the welcome message shown. */
    constructor (r: int)
      requires 0 <= r < Largest
      ensures Valid() && !Finished()
      ensures secret == r + 1 && attempts == 0
      ensures inputValue == "" && !inputDisabled && !submitDisabled && !restartVisible
      ensures message == Welcome
    {
      secret := r + 1;
      attempts := 0;
      inputValue := "";
      inputDisabled := false;
      submitDisabled := false;
      restartVisible := false;
      message := Welcome;
    }

    /** The player types text into the guess field, which is possible only while
        the field is enabled. */
    method SetInput(text: string)
      requires !inputDisabled
      modifies this`inputValue
      ensures inputValue == text
    {
      inputValue := text;
    }

    /** afficherMessage: replaces the message (its text and colour). */
    method Show(m: Message)
      modifies this`message
      ensures message == m
    {
      message := m;
    }

    /** terminerPartie: disables the submit control and the guess field and
        shows the restart control. */
    method Finish()
      modifies this`submitDisabled, this`inputDisabled, this`restartVisible
      ensures submitDisabled && inputDisabled && restartVisible
    {
      submitDisabled := true;
      inputDisabled := true;
      restartVisible := true;
    }

    /** The second half of verifierTentative, for a guess that passed the guard:
        count the attempt, then compare it with the secret. */
    method Judge(guess: int)
      requires Valid() && !submitDisabled
      requires Smallest <= guess <= Largest
      modifies this
      ensures Valid()
      ensures secret == old(secret) && inputValue == old(inputValue)
      ensures attempts == old(attempts) + 1
      ensures guess == secret ==>
        message == Win(secret, attempts) && submitDisabled && inputDisabled && restartVisible
      ensures guess < secret ==>
        message == TooLow(guess) && !submitDisabled && !inputDisabled && !restartVisible
      ensures guess > secret ==>
        message == TooHigh(guess) && !submitDisabled && !inputDisabled && !restartVisible
    {
      attempts := attempts + 1;
      if guess == secret {
        Show(Win(secret, attempts));
        Finish();
      } else if guess < secret {
        Show(TooLow(guess));
      } else {
        Show(TooHigh(guess));
      }
    }

    /** verifierTentative: the handler of the submit control and of the Enter key
        in the guess field.  It has no guard of its own against a finished game;
        the precondition is the model's assumption that it is called only while the
        submit control is enabled. */
    method Submit()
      requires Valid() && !submitDisabled
      modifies this
      ensures Valid()
      ensures secret == old(secret)
      ensures inputValue == ""
      // A rejected guess: an error, no attempt counted, nothing else changes.
      ensures IsRejected(old(inputValue)) ==>
        && message == Error
        && attempts == old(attempts)
        && !submitDisabled && !inputDisabled && !restartVisible
      // An accepted guess counts one attempt, before it is compared.
      ensures !IsRejected(old(inputValue)) ==>
        var guess := ParseIntegerFromMobile(old(inputValue)).value;
        && attempts == old(attempts) + 1
        && (guess == secret ==>
              message == Win(secret, attempts) && submitDisabled && inputDisabled && restartVisible)
        && (guess < secret ==>
              message == TooLow(guess) && !submitDisabled && !inputDisabled && !restartVisible)
        && (guess > secret ==>
              message == TooHigh(guess) && !submitDisabled && !inputDisabled && !restartVisible)
    {
      var raw := inputValue;
      var guess := ParseIntegerFromMobile(raw);
      if raw == "" || guess.None? || guess.value < Smallest || guess.value > Largest {
        Show(Error);
        inputValue := "";
        return;
      }
      Judge(guess.value);
      inputValue := "";
    }

    /** reinitialiserJeu: valid in any state; draws a new secret and returns to
        the start of a game with the new-number prompt. */
    method Restart(r: int)
      requires 0 <= r < Largest
      modifies this
      ensures Valid() && !Finished()
      ensures secret == r + 1 && attempts == 0
      ensures inputValue == "" && !inputDisabled && !submitDisabled && !restartVisible
      ensures message == Prompt
    {
      secret := r + 1;
      attempts := 0;
      Show(Prompt);
      inputValue := "";
      inputDisabled := false;
      submitDisabled := false;
      restartVisible := false;
    }
  }

  /** The player types the decimal notation of n and submits it: the outcome
      depends on n alone, compared with the secret. */
  method Play(g: Game, n: int)
    requires g.Valid() && !g.Finished()
    modifies g
    ensures g.Valid() && g.secret == old(g.secret)
    ensures (n < Smallest || n > Largest) ==>
      g.message == Error && g.attempts == old(g.attempts) && !g.Finished()
    ensures Smallest <= n <= Largest ==>
      && g.attempts == old(g.attempts) + 1
      && (n == g.secret <==> g.message == Win(n, g.attempts))
      && (n < g.secret <==> g.message == TooLow(n))
      && (n > g.secret <==> g.message == TooHigh(n))
      && (g.Finished() <==> n == g.secret)
  {
    DecimalGuess(n);
    g.SetInput(DecimalString(n));
    g.Submit();
  }

  /** Guessing the secret at once, as the first thing after the page loads, wins
      in one attempt and finishes the game. */
  method FirstGuessWins(r: int) returns (g: Game)
    requires 0 <= r < Largest
    ensures g.Valid() && g.Finished() && g.inputDisabled && g.restartVisible
    ensures g.message == Win(r + 1, 1)
  {
    g := new Game(r);
    Play(g, r + 1);
  }

  /** The same after a restart, from any state: the counter starts again at 0. */
  method RestartThenGuessWins(g: Game, r: int)
    requires 0 <= r < Largest
    modifies g
    ensures g.Valid() && g.Finished() && g.inputDisabled && g.restartVisible
    ensures g.message == Win(r + 1, 1)
  {
    g.Restart(r);
    Play(g, r + 1);
  }

  /** A game whose secret is 14: 10 is too low at attempt 1, 18 too high at
      attempt 2, and 14 wins at attempt 3, since the winning guess is counted
      too; then the game is finished. */
  method ThreeGuesses() returns (g: Game)
    ensures g.Valid() && g.Finished() && g.inputDisabled && g.restartVisible
    ensures g.message == Win(14, 3)
  {
    g := new Game(13);
    Play(g, 10);
    assert g.message == TooLow(10) && g.attempts == 1;
    Play(g, 18);
    assert g.message == TooHigh(18) && g.attempts == 2;
    Play(g, 14);
  }
}
