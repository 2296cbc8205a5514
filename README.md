# Binary to Decimal Quiz — a verified model of the quiz engine

The quiz (`src/App.js`) shows a random bit string of `bitSize` bits, flagged as
signed or unsigned, and asks for its decimal value before a countdown runs out.
A correct answer extends the score; a wrong one resets the score to zero and
keeps the high score as the longer of the two. This project models the
component's state and its handlers with the rendering taken away, and proves
what the decoding and the scoring mean.

- `numerals.dfy`:
  - module `Wrappers`: `Option`, where `None` plays JavaScript's `NaN`;
  - module `Numerals`: powers of two, `parseInt(text)` as the answer field
    uses it (leading whitespace, an optional sign, the longest run of decimal
    digits), and the decimal text a template literal prints for an integer.
- `decoder.dfy`, module `Decoder`:
  - `binaryToDecimal` and `parseInt(s, 2)`;
  - proofs that the invert, add one, negate recipe is two's complement;
  - the value ranges;
  - an encoder that is its exact inverse.
- `scoring.dfy`, module `Scoring`:
  - the score rule of `checkAnswer` as a pure function;
  - its fold over the outcomes of a session;
  - a declarative reading of what the two counters mean. The score is the current
    streak of correct answers, and the high score is the longest streak that a
    wrong answer has ended.
- `quiz.dfy`, module `Quiz`: class `App` with the component's state variables as
  fields, and one method per handler or effect:
  - `generateBinaryNumber`, `checkAnswer` and `handleKeyDown`;
  - the Submit and Next buttons and the answer field;
  - one run of the countdown effect;
  - the two configuration inputs, which start a new round.

  Each event method (the constructor, the buttons, the answer field, the Enter
  key, the countdown and the two configuration inputs) keeps the invariant
  `Valid()`. `CheckAnswer` itself keeps the weaker `Consistent()`, which does not
  bound the evaluations of a round. `GenerateBinaryNumber` needs only
  `SessionOk()`, the part that holds across rounds. `Valid()` says:
  - the configuration is in range;
  - the bit string has `bitSize` bits;
  - `0 <= timeLeft <= timeLimit`;
  - a submitted round shows a message and records the decoded answer;
  - `(score, maxScore)` equals the fold of the score rule over every outcome of
    the session (ghost field `history`);
  - no round is evaluated twice (ghost field `evaluations`).

`Math.random()` becomes parameters: `draws` (one boolean per bit; `true` means the draw was
below one half, which appends `"0"`) and `signDraw`.

## Model

| member | source | states |
|---|---|---|
| Decoder.BinaryToDecimal | src/App.js:30-43 | the decoded value is NaN exactly when the bit string is empty |
| Decoder.ParseBinary | src/App.js:40 | `parseInt(s, 2)` of a bit string is NaN exactly when the string is empty |
| Decoder.Invert | src/App.js:33-36 | flipping every bit keeps the length and gives a bit string |
| Decoder.DecodeIsTwosComplement | src/App.js:30-43 | for every non-empty bit string the invert, parse, add one, negate recipe yields the two's-complement value: the positional weight, less 2^n when signed and the top bit is 1 |
| Decoder.DecodeRange | src/App.js:30-43 | unsigned values lie in [0, 2^n − 1]; signed ones in [−2^(n−1), 2^(n−1) − 1] and are negative exactly when the top bit is 1 |
| Decoder.SignedNonNegativeIsUnsigned | src/App.js:32-41 | a signed string whose top bit is 0 decodes as the unsigned one |
| Decoder.SignedNegativeWraps | src/App.js:32-38 | a signed string whose top bit is 1 decodes to its unsigned value minus 2^n |
| Decoder.WorkedExample | src/App.js:174-180 | the rules panel's example: 1001 signed is −7 |
| Decoder.FourBitSignedBounds | src/App.js:32-41 | 1000 signed is −8 and 0111 signed is 7 |
| Decoder.FourBitUnsignedBounds | src/App.js:40 | 0000 unsigned is 0 and 1111 unsigned is 15 |
| Decoder.BinaryValueIsWeight | src/App.js:40 | the digit accumulation of `parseInt(s, 2)` equals the sum of the bit weights |
| Decoder.WeightAppend | src/App.js:40 | appending a bit doubles the weight and adds the bit |
| Decoder.WeightBounds | src/App.js:30-43 | an n-bit string weighs less than 2^n, and at least 2^(n−1) exactly when its top bit is 1 |
| Decoder.InvertWeight | src/App.js:33-37 | inverting every bit maps weight w to 2^n − 1 − w |
| Decoder.UnsignedBitsWeight | src/App.js:30-43 | the n low bits of any v < 2^n weigh v |
| Decoder.WeightThenBits | src/App.js:30-43 | re-encoding a bit string's weight in its length gives back the string |
| Decoder.EncodeThenDecode | src/App.js:30-43 | every value representable in n bits (signed or not) decodes back from its encoding |
| Decoder.DecodeThenEncode | src/App.js:30-43 | every bit string's value is representable in its length, and encoding that value gives back the string |
| Numerals.FormatDecimal | src/App.js:56 | the printed answer starts with a minus sign exactly when it is negative, and the rest is decimal digits |
| Numerals.ParseDecimal | src/App.js:48 | `parseInt(userInput)`: leading whitespace skipped, optional sign, longest run of decimal digits, NaN without one. Its properties are the lemmas below; it differs from JavaScript only on a `0x` prefix (see "Left out") |
| Numerals.DecimalDigits | src/App.js:56 | the digits printed for n are decimal digits, accumulate to n, and have no leading zero |
| Numerals.TrimStartRemovesWhitespace | src/App.js:48 | `parseInt` skips exactly a whitespace prefix: what it keeps is a suffix that does not start with whitespace |
| Numerals.DigitPrefixIsDigits | src/App.js:48 | the run of characters `parseInt` reads is made of decimal digits |
| Numerals.DigitPrefixIsLongest | src/App.js:48 | that run is maximal: the next character, if any, is not a digit |
| Numerals.DigitPrefixOfDigits | src/App.js:48 | on a string of digits only, the run is the whole string |
| Numerals.DigitsParse | src/App.js:48 | a string of digits parses to its decimal value |
| Numerals.NegatedDigitsParse | src/App.js:48 | a minus sign followed by digits parses to the negated value |
| Numerals.FormatThenParse | src/App.js:48-58 | the text printed for any integer answer parses back to that integer |
| Numerals.NoDigitsIsNaN | src/App.js:48 | text containing no digit at all (the empty answer, whitespace, letters, a lone sign) parses to NaN |
| Scoring.ReplayAppend | src/App.js:53-62 | the session fold extends by one application of the score rule per evaluation |
| Scoring.RecordKeepsStreaks | src/App.js:53-62 | if score is the current streak and maxScore the longest closed streak, one more evaluation under the rule keeps both meanings |
| Scoring.ReplayMeansStreaks | src/App.js:53-62 | after any sequence of outcomes, score is the current streak of correct answers and maxScore the longest streak a wrong answer has ended (0 if none) |
| Scoring.Record | src/App.js:53-63 | the score rule of one evaluation, as a function of the old tally and the verdict; what it means is stated by `RecordKeepsBest`, `RecordKeepsStreaks` and `ReplayMeansStreaks` |
| Scoring.RecordKeepsBest | src/App.js:53-63 | the score is 0 exactly after a wrong answer; a correct answer adds one to the score and keeps the high score; the high score never decreases, and a wrong answer leaves it at the larger of the ended score and the old high score |
| Quiz.DrawnBits | src/App.js:18-20 | the generated string has one bit per draw, and bit i is 0 exactly when draw i was below one half |
| Quiz.Matches | src/App.js:48 | `parseInt(userInput) === answer` holds exactly when both are the same number; NaN matches nothing, not even NaN |
| Quiz.EmptyAnswerIsWrong | src/App.js:48 | an empty answer never matches, whatever the correct answer (NaN equals nothing) |
| Quiz.ShownAnswerMatches | src/App.js:48-58 | the failure message is its fixed text followed by the answer, and typing back what follows that text is a correct answer |
| Quiz.App.constructor | src/App.js:4-14 | initial state (score 0, high score 0, 4 bits, 15 s) followed by the mount run of the new-round effect: a fresh 4-bit round, valid and open |
| Quiz.App.GenerateBinaryNumber | src/App.js:16-28 | `Started`: the new string is `DrawnBits(draws)` of length `bitSize` and the sign is the draw; input and message are cleared; the round is open with the full time; scores, history, the last recorded answer and the configuration are unchanged |
| Quiz.App.CheckAnswer | src/App.js:45-65 | `Evaluated`, which says: the decoded answer is recorded and `submitted` is set. A matching parse of the input adds one to score and keeps maxScore. Any other input, NaN included, raises maxScore to the score only if it is strictly larger, and resets score to 0. The message is Correct or Incorrect(answer) accordingly. The new scores are the fold over the history extended by this outcome. Number, sign, input, configuration and timer are unchanged |
| Quiz.App.HandleKeyDown | src/App.js:67-75 | keys other than Enter change nothing. Enter on an open round evaluates it exactly as `CheckAnswer` does (`Evaluated`), against the old number and sign. Enter on an evaluated round starts a new one (`Started`) with the configuration kept |
| Quiz.App.TimerStep | src/App.js:77-84 | an open round with time left loses one second and nothing else changes. An open round at 0 is evaluated as by `CheckAnswer`, against the old number and sign. An evaluated round is untouched. `0 <= timeLeft <= timeLimit` holds throughout |
| Quiz.App.SetBitSize | src/App.js:86-88 | a new bit size starts a round of that many bits (`Started`), keeping the scores and the time limit; the same size changes nothing |
| Quiz.App.SetTimeLimit | src/App.js:86-88 | a new time limit starts a round (`Started`) with the full new time, keeping the scores and the bit size; the same limit changes nothing |
| Quiz.App.PressSubmit | src/App.js:139-144 | the Submit button evaluates the open round as `CheckAnswer` does (`Evaluated`), against the old number and sign, and at most once |
| Quiz.App.PressNext | src/App.js:149-154 | the Next button starts a new round after evaluation (`Started`), keeping the configuration; before evaluation it changes nothing |
| Quiz.App.EnterText | src/App.js:131-136 | typing replaces the answer only while the round is open; every other field is unchanged, and after evaluation nothing changes |

## Left out

- Rendering, styles, colours and the rules panel's text: the message is the datatype `Message`, and `MessageText` gives its text.
- `Math.random()`: the caller supplies the draws.
- React's scheduling:
  - setters batched in one handler are modelled as one assignment at its end;
  - `TimerStep` is one run of the countdown effect, with the one-second wait collapsed into the call;
  - clearing a pending timeout is not modelled.
- The Submit and Next buttons and the answer field exist only in one phase of the round. The model guards them with `submitted` instead of hiding them.
- Quiz.App.HandleKeyDown: the "Enter on an evaluated round" branch is modelled as written. In the page it is unreachable, because the answer field is not shown after evaluation.
- Quiz.App.CheckAnswer: does not check `submitted` itself, as in the source. The at-most-once guarantee comes from its callers and is stated by `Valid()` (ghost `evaluations <= 1`).
- Numerals.ParseDecimal: reads decimal digits only. JavaScript's `parseInt` reads `0x`/`0X` after the sign as a hexadecimal prefix, and the model does not. Two consequences: typing `0x7` for the answer 7 scores correct in the page but wrong in the model (the model reads 0); and `0x` scores correct in the model when the number decodes to 0, while the page reads NaN and scores it wrong. Digit runs are also unbounded integers, not IEEE doubles, so there is no rounding past 2^53.
- `correctAnswer` starts as `""` in the source. Here it starts as `None`, and it is read only after an evaluation.
- Quiz.App.SetBitSize: its precondition of 2 to 10 bits is a modelling choice, not a guarantee of the source. The number input's `min` and `max` do not stop a typed value, and `parseInt` of the field goes straight to `setBitSize`. So 0, 1, 11 or more, a negative size, or NaN from a cleared field reach `generateBinaryNumber`. For 0, a negative size or NaN the loop builds `""`, the answer decodes to NaN, and every answer is scored wrong. None of these sizes is modelled.
- Quiz.App.SetTimeLimit: its precondition admits only the select's four options, which are the only values the select can send.
