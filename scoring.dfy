/**
 * The score rule of checkAnswer and what it amounts to over a whole session:
 * the score is the streak of correct answers since the last wrong one, and the
 * high score is the longest streak that a wrong answer has ended.
 */
module Scoring {
  datatype Tally = Tally(score: nat, maxScore: nat)

  /**
   * One evaluation: a correct answer extends the streak and leaves the record
   * alone; a wrong one ends the streak and keeps the longer of the ended streak
   * and the old record, so the record never goes down.
   */
  function Record(t: Tally, correct: bool): Tally {
    if correct then Tally(t.score + 1, t.maxScore)
    else Tally(0, if t.score > t.maxScore then t.score else t.maxScore)
  }

  /** Answers i .. j-1 of the history were correct and answer j was wrong. */
  ghost predicate ClosedRun(history: seq<bool>, i: int, j: int) {
    0 <= i <= j < |history| && !history[j] && forall k :: i <= k < j ==> history[k]
  }

  /** The last n answers were correct, and the one before them (if any) was not. */
  ghost predicate CurrentRun(history: seq<bool>, n: nat) {
    n <= |history|
    && (forall k :: |history| - n <= k < |history| ==> history[k])
    && (n < |history| ==> !history[|history| - 1 - n])
  }

  /** m is the length of the longest closed run, or 0 when there is none. */
  ghost predicate LongestClosedRun(history: seq<bool>, m: nat) {
    (forall i, j :: ClosedRun(history, i, j) ==> j - i <= m)
    && (m == 0 || exists i, j :: ClosedRun(history, i, j) && j - i == m)
  }

  ghost predicate Describes(history: seq<bool>, t: Tally) {
    CurrentRun(history, t.score) && LongestClosedRun(history, t.maxScore)
  }

  /** The tally after a session's evaluations, from a score and high score of 0. */
  function Replay(history: seq<bool>): Tally {
    if history == [] then Tally(0, 0)
    else Record(Replay(history[..|history| - 1]), history[|history| - 1])
  }

  lemma ReplayAppend(history: seq<bool>, correct: bool)
    ensures Replay(history + [correct]) == Record(Replay(history), correct)
  {
    assert (history + [correct])[..|history|] == history;
  }

  /** Over any session, the score is the current streak and the high score the longest ended streak. */
  lemma {:induction false} ReplayMeansStreaks(history: seq<bool>)
    ensures Describes(history, Replay(history))
  {
    if history != [] {
      var front := history[..|history| - 1];
      ReplayMeansStreaks(front);
      RecordKeepsStreaks(front, Replay(front), history[|history| - 1]);
      assert front + [history[|history| - 1]] == history;
    }
  }

  /** Applying the rule to one more outcome keeps score and high score equal to the two streak lengths. */
  lemma {:induction false} RecordKeepsStreaks(history: seq<bool>, t: Tally, correct: bool)
    requires Describes(history, t)
    ensures Describes(history + [correct], Record(t, correct))
  {
    var h := history + [correct];
    var n := |history|;
    assert forall k :: 0 <= k < n ==> h[k] == history[k];
    forall i, j | ClosedRun(history, i, j)
      ensures ClosedRun(h, i, j)
    {
    }
    if correct {
      forall i, j | ClosedRun(h, i, j)
        ensures j - i <= t.maxScore
      {
        assert ClosedRun(history, i, j);
      }
      if t.maxScore != 0 {
        var i, j :| ClosedRun(history, i, j) && j - i == t.maxScore;
        assert ClosedRun(h, i, j);
      }
      assert CurrentRun(h, t.score + 1);
    } else {
      var best := if t.score > t.maxScore then t.score else t.maxScore;
      forall i, j | ClosedRun(h, i, j)
        ensures j - i <= best
      {
        if j < n {
          assert ClosedRun(history, i, j);
        }
      }
      if t.score > t.maxScore {
        assert ClosedRun(h, n - t.score, n);
      } else if t.maxScore != 0 {
        var i, j :| ClosedRun(history, i, j) && j - i == t.maxScore;
        assert ClosedRun(h, i, j);
      }
    }
  }

  /**
   * What one evaluation does to the tally: the score is 0 exactly after a wrong
   * answer, a correct answer adds one and leaves the record alone, the record
   * never goes down, and a wrong answer leaves it at the larger of the ended
   * streak and the old record.
   */
  lemma RecordKeepsBest(t: Tally, correct: bool)
    ensures Record(t, correct).score == 0 <==> !correct
    ensures correct ==> Record(t, correct) == Tally(t.score + 1, t.maxScore)
    ensures Record(t, correct).maxScore >= t.maxScore
    ensures !correct ==>
      Record(t, correct).maxScore >= t.score
      && (Record(t, correct).maxScore == t.score || Record(t, correct).maxScore == t.maxScore)
  {
  }
}
