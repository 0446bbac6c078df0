# Guess the number: a Dafny model

The game picks a secret number between 1 and 20. The player types guesses into a
text field and submits them. Each accepted guess is counted and answered with
"too low", "too high" or a win message. After a win, the submit control and the
field are disabled and a restart control appears. Restart draws a new secret and
starts again from zero attempts.

The model has two parts, one Dafny module each:

- `mobile_input.dfy`, module `MobileInput`: the lenient parser
  `parseIntegerFromMobile`, written as pure functions that follow the code step by
  step. The steps are: trim, delete U+00A0 and U+202F, replace the first comma with
  a dot, take the leftmost match of `-?\d+`, and read it with `parseInt` in base 10.
  Beside the parser stands a reference definition, `FirstInteger`: the first maximal
  run of ASCII digits, negated exactly when a `-` comes right before it. The main
  theorem, `ParseIsFirstInteger`, says the parser equals `FirstInteger` applied to
  the text once its no-break spaces are deleted. So trimming and the comma step
  never change the result, but deleting no-break spaces can (`"1\u00A02"` is 12).
- `guessing_game.dfy`, module `GuessingGame`: the state machine, as a class
  `Game`. Its fields are the two closure variables `nombreSecret` (`secret`) and
  `compteurTentatives` (`attempts`), plus the page state that the handlers write:
  the field's text and disabled flag, the submit control's disabled flag, the
  restart control's visibility, and the message kind. `Submit`, `Finish` and
  `Restart` model `verifierTentative`, `terminerPartie` and `reinitialiserJeu`.
  `Submit` checks the guard and hands an accepted guess to `Judge`, which counts
  the attempt and compares the guess.
  `Show` models `afficherMessage`. The constructor models the start-up state.

`Math.floor(Math.random() * 20)` becomes an integer parameter `r` with
`0 <= r < 20`, so the secret is `r + 1`. Typing into the field becomes the method
`SetInput`, which needs the field to be enabled. A click or a touch on the submit
control, or the Enter key in the guess field, becomes a call of `Submit`. `Submit`
requires the submit control to be enabled. The handler has no such check itself:
this precondition is an assumption of the model, not something the code enforces
(see "Left out"). The invariant `Valid` keeps the field and the submit control
enabled or disabled together.

The code counts every accepted guess, including the winning one, before it
compares. So the sequence 10, 18, 14 against the secret 14 wins at attempt 3: the
winning guess is counted too. `ThreeGuesses` proves the count of 3.

## Model

| member | source | states |
|---|---|---|
| `MobileInput.LeadingTrimmable` | jeu.js:35 | the number of whitespace or line-terminator characters at the start of the text: all of those are trimmable, and the next character is not |
| `MobileInput.TrailingTrimmable` | jeu.js:35 | the same count taken from the end of the text |
| `MobileInput.Trim` | jeu.js:35 | `trim()` gives a contiguous piece of the input; everything before and after it is trimmable; the piece neither starts nor ends with a trimmable character |
| `MobileInput.DeleteNoBreakSpaces` | jeu.js:35 | `replace(/\u00A0\|\u202F/g, '')` leaves no U+00A0 or U+202F and never makes the text longer |
| `MobileInput.DeleteKeepsDigits` | jeu.js:35 | the result has a digit iff the input has one; an input with no digit and no `-` gives a result with none |
| `MobileInput.DeleteNoBreakSpacesAppend` | jeu.js:35 | deletion works character by character: it distributes over concatenation |
| `MobileInput.IndexOfComma` | jeu.js:38 | the position of the first `,`, or the length when there is none |
| `MobileInput.ReplaceFirstComma` | jeu.js:38 | `replace(',', '.')` turns only the first comma into a dot and leaves every other character and the length unchanged |
| `MobileInput.LeftmostMatchFrom` | jeu.js:41 | the leftmost position where `-?\d+` can match: no earlier position matches, and this one does |
| `MobileInput.DigitRunEnd` | jeu.js:41 | greedy `\d+`: the run from the start position is all ASCII digits and is followed by a non-digit or the end |
| `MobileInput.MatchSignedInteger` | jeu.js:41 | a non-null `match(/-?\d+/)` yields text of the form `-?\d+` |
| `MobileInput.MatchNoneIffNoDigit` | jeu.js:41-42 | `match` yields null exactly when the text holds no ASCII digit |
| `MobileInput.LeftmostMatchAtRun` | jeu.js:41 | the leftmost match starts at the first digit, or at the `-` right before it |
| `MobileInput.FirstIntegerNoneIffNoDigit` | jeu.js:40-42 | the reference definition `FirstInteger` gives "not a number" exactly when there is no ASCII digit |
| `MobileInput.FirstMatchIsFirstInteger` | jeu.js:41-43 | the leftmost regex match, read by `parseInt`, is the first maximal digit run, negated iff a `-` immediately precedes it |
| `MobileInput.FirstIntegerAt` | jeu.js:41-43 | the converse reading: given the first digit and the end of its run, the result is the run's decimal value, negated iff the character just before it is `-` |
| `MobileInput.FirstIntegerSameShape` | jeu.js:38-43 | only digits, `-` signs and their positions decide the result |
| `MobileInput.NeutralPrefix` | jeu.js:35-43 | characters that are neither digits nor `-` in front of the text do not change the result |
| `MobileInput.NeutralSuffix` | jeu.js:35-43 | such characters after the text do not change the result |
| `MobileInput.TrimIsIrrelevant` | jeu.js:35 | trimming never changes the parse result |
| `MobileInput.CommaStepIsIrrelevant` | jeu.js:38 | the comma-to-dot step never changes the parse result |
| `MobileInput.ParseIsFirstInteger` | jeu.js:31-44 | for every input, `parseIntegerFromMobile` is the first integer of the text with its no-break spaces deleted, and "not a number" for the empty string |
| `MobileInput.ParseNoneIffNoDigit` | jeu.js:32 | "not a number" exactly when the input holds no ASCII digit; the empty input is one such input |
| `MobileInput.DecimalValueOfDigits` | jeu.js:43 | base-10 `parseInt` of the decimal digits of n gives back n |
| `MobileInput.ParseDecimalString` | jeu.js:31-44 | typing the decimal notation of any integer, negative ones included, parses back to that integer |
| `MobileInput.NotNumbers` | jeu.js:32 | `""`, `"abc"` and `"   "` are not numbers |
| `MobileInput.LeadingTwelve` | jeu.js:41-43 | any text that starts with `1`, `2` and then no third digit reads as 12 |
| `MobileInput.TwelveInputs` | jeu.js:38-41 | `"12,0"` and `"12x"` are 12 |
| `MobileInput.SpacesInput` | jeu.js:35 | `" 7 "` is 7 |
| `MobileInput.NoBreakSpacesInput` | jeu.js:34-35 | a 7 between U+00A0 and U+202F is 7 |
| `MobileInput.JoinedDigitsInput` | jeu.js:35 | `"1\u00A02"` is 12: deleting the no-break space joins the digits |
| `MobileInput.SignInput` | jeu.js:41 | `"x-3"` is -3: a `-` right before the digits is their sign |
| `GuessingGame.AcceptedIffFirstIntegerInRange` | jeu.js:58-60 | a submission is accepted exactly when the first integer of its text, after no-break-space deletion, lies in [1, 20] |
| `GuessingGame.NoDigitRejected` | jeu.js:60 | text without a digit is always rejected |
| `GuessingGame.DecimalGuess` | jeu.js:58-60 | the decimal notation of n is accepted exactly when 1 <= n <= 20 (so 0, 21 and -5 are rejected), and it is read as n |
| `GuessingGame.Game.constructor` | jeu.js:5-6 | start-up state: secret r + 1 in [1, 20], no attempt, empty and enabled field, enabled submit, restart hidden (line 123), welcome message (line 124) |
| `GuessingGame.Game.SetInput` | jeu.js:57 | the text the handler reads is what the player typed into the enabled field |
| `GuessingGame.Game.Show` | jeu.js:46-51 | `afficherMessage` replaces the message and changes nothing else |
| `GuessingGame.Game.Finish` | jeu.js:84-89 | `terminerPartie` disables submit and the field and shows restart, and changes nothing else |
| `GuessingGame.Game.Judge` | jeu.js:68-77 | a guess that passed the guard: the count goes up by exactly one before the comparison. Equal gives Win with the secret and the new count and ends the game. Less gives TooLow and greater gives TooHigh, each echoing the guess with the controls unchanged. `Valid` is kept. |
| `GuessingGame.Game.Submit` | jeu.js:56-82 | rejected input: Error, the same count, the same secret, the controls unchanged. Accepted input: the count goes up by exactly one before the comparison. Equal gives Win with the secret and the new count, and only this outcome disables the controls and shows restart. Less gives TooLow and greater gives TooHigh, each echoing the guess and leaving the controls as they were. The field is empty after every outcome. `Valid` is kept. |
| `GuessingGame.Game.Restart` | jeu.js:91-102 | from any state: secret r + 1 in [1, 20], count 0, new-number prompt, empty and enabled field, enabled submit, restart hidden; `Valid` is re-established |
| `GuessingGame.Play` | jeu.js:56-82 | typing the decimal notation of n and submitting: the outcome depends only on n against the secret, each outcome holds iff its comparison does, and the game finishes iff n is the secret |
| `GuessingGame.FirstGuessWins` | jeu.js:5-6 | guessing the secret straight after start-up wins with 1 attempt and finishes the game |
| `GuessingGame.RestartThenGuessWins` | jeu.js:91-102 | guessing the secret straight after a restart wins with 1 attempt |
| `GuessingGame.ThreeGuesses` | jeu.js:68-77 | with the secret 14, the guesses 10, 18 and 14 end in a win at attempt 3, after TooLow at attempt 1 and TooHigh at attempt 2, which are asserted on the way |

## Left out

- Looking up the page elements, and stopping when one is missing (jeu.js:11-20): this is host I/O. The model starts with all elements present.
- The mobile input attributes (jeu.js:23-26) and the `role` and `aria-live` attributes: presentation only.
- The message texts and background colours of `afficherMessage`: each text/colour pair becomes one `Message` kind. The numbers the texts show (the echoed guess, the secret, the count) are kept as the kind's fields.
- `focus()` calls: they leave no state the model can observe.
- The event listeners, the `safeClick` wrapper with `preventDefault`, and the Enter-key handler (jeu.js:107-120): event-loop plumbing. Activations become direct calls of `Submit` and `Restart`.
- `Math.random()`: floating point. It becomes the integer parameter `r`.
- The debug `console.log` of the secret (jeu.js:127).
- The page's initial field contents and enabled state come from the HTML page, which is not part of this model. The constructor assumes an empty, enabled field and an enabled submit control.
- `GuessingGame.Game.Submit`: calls made while the controls are disabled are not modelled; the precondition that the submit control is enabled is an assumption. The code does not enforce it: a `touchstart` listener (jeu.js:110) on the disabled submit button may still fire. Such a call after a win would read the cleared field and show Error over the win message (jeu.js:60-65), which breaks `Valid`'s link between the win message and the visible restart control.
- Strings are modelled as sequences of Unicode scalar values (`seq<char>`), not of UTF-16 code units, so surrogate pairs and lone surrogates are not represented. No result changes, because no such code unit is a digit, `-`, `,`, whitespace or a no-break space.
- `MobileInput.ParseIntDecimal`: does not model the precision loss of `parseInt` on very long digit runs, or `-0`. Such values fall outside [1, 20] and are rejected anyway, so an unbounded `int` gives the same game.
