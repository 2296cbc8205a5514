/**
 * The quiz component (src/App.js) without its rendering: the state it keeps,
 * the round generator, the scoring transition, the Enter key, the Submit and
 * Next buttons, the countdown effect and the two configuration inputs.
 * Math.random() is replaced by draws the caller supplies: `true` stands for a
 * draw below one half.
 */
module Quiz {
  import opened Wrappers
  import opened Numerals
  import opened Decoder
  import opened Scoring

  /** The result message: cleared, or the verdict of the last evaluation with the answer it reveals. */
  datatype Message = Cleared | Correct | Incorrect(answer: Option<int>)

  /** The text shown for a message; a NaN answer would print as "NaN". */
  function MessageText(m: Message): string {
    match m
    case Cleared => ""
    case Correct => "Correct! Great job!"
    case Incorrect(answer) =>
      "Incorrect! The correct answer was "
      + match answer
        case Some(v) => FormatDecimal(v)
        case None => "NaN"
  }

  /** `===` between two results of parseInt: NaN equals nothing, not even NaN. */
  function Matches(guess: Option<int>, answer: Option<int>): (b: bool)
    ensures b <==> guess == answer && guess != None
  {
    guess.Some? && answer.Some? && guess.value == answer.value
  }

  /** The options of the time-limit select. */
  predicate IsTimeLimitOption(t: int) {
    t == 10 || t == 15 || t == 30 || t == 60
  }

  /** The bit each draw appends: "0" below one half, "1" otherwise. */
  function DrawnBits(draws: seq<bool>): (s: string)
    ensures |s| == |draws| && IsBitString(s)
    ensures forall i :: 0 <= i < |draws| ==> (s[i] == '0' <==> draws[i])
  {
    seq(|draws|, i requires 0 <= i < |draws| => if draws[i] then '0' else '1')
  }

  lemma EmptyAnswerIsWrong(answer: Option<int>)
    ensures !Matches(ParseDecimal(""), answer)
  {
    NoDigitsIsNaN("");
  }

  /** Typing back the number the failure message ends with is a correct answer. */
  lemma ShownAnswerMatches(answer: int)
    ensures var text := MessageText(Incorrect(Some(answer)));
      var prefix := "Incorrect! The correct answer was ";
      |text| > |prefix| && text[..|prefix|] == prefix
      && Matches(ParseDecimal(text[|prefix|..]), Some(answer))
  {
    var prefix := "Incorrect! The correct answer was ";
    var shown := FormatDecimal(answer);
    assert (prefix + shown)[|prefix|..] == shown;
    FormatThenParse(answer);
  }

  class App {
    var binaryNumber: string
    var userInput: string
    var message: Message
    var score: nat
    var maxScore: nat
    var isSigned: bool
    var correctAnswer: Option<int>  // None is the initial "", before any evaluation
    var submitted: bool
    var bitSize: int
    var timeLeft: int
    var timeLimit: int

    /** Outcome of every evaluation of the session, oldest first. */
    ghost var history: seq<bool>
    /** Evaluations of the current round. */
    ghost var evaluations: nat

    /** What holds across rounds: the configuration ranges and the meaning of the two scores. */
    ghost predicate SessionOk()
      reads this
    {
      2 <= bitSize <= 10 && IsTimeLimitOption(timeLimit)
      && Tally(score, maxScore) == Replay(history)
    }

    /** What holds of every round, however often it has been evaluated. */
    ghost predicate Consistent()
      reads this
    {
      SessionOk()
      && IsBitString(binaryNumber) && |binaryNumber| == bitSize
      && 0 <= timeLeft <= timeLimit
      && (submitted <==> evaluations > 0)
      && (submitted <==> message != Cleared)
      && (submitted ==> correctAnswer == BinaryToDecimal(binaryNumber, isSigned))
    }

    /** The state every user event keeps: in addition, no round is evaluated twice. */
    ghost predicate Valid()
      reads this
    {
      Consistent() && evaluations <= 1
    }

    /**
     * The state after checkAnswer evaluated the round that was open in the old
     * state: the verdict on the old input is recorded and scored, the message
     * shows it, and the number, sign, input, configuration and timer are kept.
     */
    twostate predicate Evaluated()
      reads this
    {
      var correct := Matches(ParseDecimal(old(userInput)), correctAnswer);
      submitted && evaluations == old(evaluations) + 1
      && history == old(history) + [correct]
      && Tally(score, maxScore) == Record(old(Tally(score, maxScore)), correct)
      && message == (if correct then Correct else Incorrect(correctAnswer))
      && binaryNumber == old(binaryNumber) && isSigned == old(isSigned) && userInput == old(userInput)
      && bitSize == old(bitSize) && timeLimit == old(timeLimit) && timeLeft == old(timeLeft)
    }

    /**
     * The state after generateBinaryNumber started a round: the drawn number and
     * sign, cleared input and message, an open round with the full time, and the
     * scores, history and last recorded answer kept.
     */
    twostate predicate Started(draws: seq<bool>, signDraw: bool)
      reads this
    {
      binaryNumber == DrawnBits(draws) && isSigned == signDraw
      && userInput == "" && message == Cleared && !submitted && evaluations == 0 && timeLeft == timeLimit
      && score == old(score) && maxScore == old(maxScore) && history == old(history)
      && correctAnswer == old(correctAnswer)
    }

    /** The initial state followed by the mount effect, which generates the first round. */
    constructor (draws: seq<bool>, signDraw: bool)
      requires |draws| == 4
      ensures Valid() && !submitted
      ensures binaryNumber == DrawnBits(draws) && isSigned == signDraw
      ensures userInput == "" && message == Cleared && correctAnswer == None
      ensures score == 0 && maxScore == 0 && history == []
      ensures bitSize == 4 && timeLimit == 15 && timeLeft == 15
    {
      binaryNumber := "";
      userInput := "";
      message := Cleared;
      score := 0;
      maxScore := 0;
      isSigned := false;
      correctAnswer := None;
      submitted := false;
      bitSize := 4;
      timeLeft := 15;
      timeLimit := 15;
      history := [];
      evaluations := 0;
      new;
      GenerateBinaryNumber(draws, signDraw);
    }

    /** Starts a round: a fresh bitSize-long number and sign, cleared input and message, a full timer. */
    method GenerateBinaryNumber(draws: seq<bool>, signDraw: bool)
      requires SessionOk() && |draws| == bitSize
      modifies this
      ensures Valid() && Started(draws, signDraw)
      ensures bitSize == old(bitSize) && timeLimit == old(timeLimit)
    {
      var number := "";
      for i := 0 to bitSize
        invariant |number| == i
        invariant forall k :: 0 <= k < i ==> number[k] == (if draws[k] then '0' else '1')
      {
        number := number + (if draws[i] then "0" else "1");
      }
      isSigned := signDraw;
      binaryNumber := number;
      userInput := "";
      message := Cleared;
      submitted := false;
      timeLeft := timeLimit;
      evaluations := 0;
    }

    /**
     * Evaluates the typed answer against the decoded number. The source does
     * not check `submitted` here; its callers do. React applies the state
     * setters of one handler together, hence the single assignment at the end.
     */
    method CheckAnswer()
      requires Consistent()
      modifies this
      ensures Consistent() && Evaluated()
    {
      var answer := BinaryToDecimal(binaryNumber, isSigned);
      var correct := Matches(ParseDecimal(userInput), answer);
      var newMessage: Message;
      var newScore: nat;
      var newMax := maxScore;
      if correct {
        newMessage := Correct;
        newScore := score + 1;
      } else {
        newMessage := Incorrect(answer);
        if score > maxScore {
          newMax := score;
        }
        newScore := 0;
      }
      ReplayAppend(history, correct);
      correctAnswer, message, score, maxScore, submitted, evaluations, history
        := answer, newMessage, newScore, newMax, true, evaluations + 1, history + [correct];
    }

    /** onChange of the answer field, which is rendered only while the round is open. */
    method EnterText(text: string)
      requires Valid()
      modifies this
      ensures Valid()
      ensures old(submitted) ==> unchanged(this)
      ensures !old(submitted) ==>
        userInput == text
        && binaryNumber == old(binaryNumber) && isSigned == old(isSigned) && submitted == old(submitted)
        && message == old(message) && correctAnswer == old(correctAnswer)
        && score == old(score) && maxScore == old(maxScore) && history == old(history) && evaluations == old(evaluations)
        && bitSize == old(bitSize) && timeLimit == old(timeLimit) && timeLeft == old(timeLeft)
    {
      if !submitted {
        userInput := text;
      }
    }

    /** The Submit button, which exists only while the round is open. */
    method PressSubmit()
      requires Valid()
      modifies this
      ensures Valid() && submitted
      ensures old(submitted) ==> unchanged(this)
      ensures !old(submitted) ==> Evaluated() && correctAnswer == BinaryToDecimal(old(binaryNumber), old(isSigned))
    {
      if !submitted {
        CheckAnswer();
      }
    }

    /** The Next button, which exists only once the round is evaluated. */
    method PressNext(draws: seq<bool>, signDraw: bool)
      requires Valid() && |draws| == bitSize
      modifies this
      ensures Valid() && !submitted
      ensures !old(submitted) ==> unchanged(this)
      ensures old(submitted) ==> Started(draws, signDraw) && bitSize == old(bitSize) && timeLimit == old(timeLimit)
    {
      if submitted {
        GenerateBinaryNumber(draws, signDraw);
      }
    }

    /** A key press in the answer field: Enter evaluates an open round and starts the next one after that. */
    method HandleKeyDown(key: string, draws: seq<bool>, signDraw: bool)
      requires Valid() && |draws| == bitSize
      modifies this
      ensures Valid()
      ensures key != "Enter" ==> unchanged(this)
      ensures key == "Enter" && !old(submitted) ==>
        Evaluated() && correctAnswer == BinaryToDecimal(old(binaryNumber), old(isSigned))
      ensures key == "Enter" && old(submitted) ==>
        Started(draws, signDraw) && bitSize == old(bitSize) && timeLimit == old(timeLimit)
    {
      if key == "Enter" {
        if !submitted {
          CheckAnswer();
        } else {
          GenerateBinaryNumber(draws, signDraw);
        }
      }
    }

    /**
     * One run of the countdown effect: a second passes while time is left, the
     * answer is evaluated once the time is out, and nothing happens after evaluation.
     */
    method TimerStep()
      requires Valid()
      modifies this
      ensures Valid()
      ensures old(submitted) ==> unchanged(this)
      ensures !old(submitted) && old(timeLeft) > 0 ==>
        timeLeft == old(timeLeft) - 1
        && userInput == old(userInput) && binaryNumber == old(binaryNumber) && isSigned == old(isSigned)
        && submitted == old(submitted) && message == old(message) && correctAnswer == old(correctAnswer)
        && score == old(score) && maxScore == old(maxScore) && history == old(history) && evaluations == old(evaluations)
        && bitSize == old(bitSize) && timeLimit == old(timeLimit)
      ensures !old(submitted) && old(timeLeft) == 0 ==>
        Evaluated() && correctAnswer == BinaryToDecimal(old(binaryNumber), old(isSigned))
    {
      if timeLeft > 0 && !submitted {
        timeLeft := timeLeft - 1;
      } else if timeLeft == 0 && !submitted {
        CheckAnswer();
      }
    }

    /** The bit-size input: a different size starts a new round of that size. */
    method SetBitSize(size: int, draws: seq<bool>, signDraw: bool)
      requires Valid() && 2 <= size <= 10 && |draws| == size
      modifies this
      ensures Valid() && bitSize == size && timeLimit == old(timeLimit)
      ensures size == old(bitSize) ==> unchanged(this)
      ensures size != old(bitSize) ==> Started(draws, signDraw)
    {
      if size != bitSize {
        bitSize := size;
        GenerateBinaryNumber(draws, signDraw);
      }
    }

    /** The time-limit select: a different limit starts a new round with the full new time. */
    method SetTimeLimit(limit: int, draws: seq<bool>, signDraw: bool)
      requires Valid() && IsTimeLimitOption(limit) && |draws| == bitSize
      modifies this
      ensures Valid() && timeLimit == limit && bitSize == old(bitSize)
      ensures limit == old(timeLimit) ==> unchanged(this)
      ensures limit != old(timeLimit) ==> Started(draws, signDraw) && timeLeft == limit
    {
      if limit != timeLimit {
        timeLimit := limit;
        GenerateBinaryNumber(draws, signDraw);
      }
    }
  }
}
