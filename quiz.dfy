// The quiz session: one pass through a non-empty quiz, answering each
// question, revealing its explanation, moving on, and on the last question
// completing the run, which scores it and emits one QuizResult.

module Quiz {
  import opened Types

  /** The answer recorded for `q` is its correct option. */
  predicate AnsweredCorrectly(q: QuizQuestion, answers: map<string, int>) {
    q.id in answers && answers[q.id] == q.correctAnswerIndex
  }

  /** The number of questions of `quiz` whose recorded answer is the correct one. */
  function Score(quiz: seq<QuizQuestion>, answers: map<string, int>): (r: nat)
    ensures r <= |quiz|
  {
    if quiz == [] then 0
    else
      Score(quiz[..|quiz| - 1], answers)
      + (if AnsweredCorrectly(quiz[|quiz| - 1], answers) then 1 else 0)
  }

  /** The score is the full length exactly when every question is answered correctly. */
  lemma {:induction false} FullScoreIffAllCorrect(quiz: seq<QuizQuestion>, answers: map<string, int>)
    ensures Score(quiz, answers) == |quiz|
            <==> forall i :: 0 <= i < |quiz| ==> AnsweredCorrectly(quiz[i], answers)
  {
    if quiz != [] {
      var init := quiz[..|quiz| - 1];
      FullScoreIffAllCorrect(init, answers);
      assert forall i :: 0 <= i < |init| ==> init[i] == quiz[i];
    }
  }

  /** A score of zero means no question is answered correctly. */
  lemma {:induction false} ZeroScoreIffNoneCorrect(quiz: seq<QuizQuestion>, answers: map<string, int>)
    ensures Score(quiz, answers) == 0
            <==> forall i :: 0 <= i < |quiz| ==> !AnsweredCorrectly(quiz[i], answers)
  {
    if quiz != [] {
      var init := quiz[..|quiz| - 1];
      ZeroScoreIffNoneCorrect(init, answers);
      assert forall i :: 0 <= i < |init| ==> init[i] == quiz[i];
    }
  }

  /** `Math.round(score / total * 100)`, the integer percentage of a run. */
  function Percentage(score: int, total: int): (p: int)
    requires 0 < total
    requires 0 <= score <= total
    ensures 0 <= p <= 100
  {
    RoundDivPercentRange(100 * score, total);
    RoundDiv(100 * score, total)
  }

  /** A perfect score is 100%; rounding also gives 100% when at most
      half a percent is missed, which needs at least 200 questions. */
  lemma PercentageHundred(score: int, total: int)
    requires 0 < total && 0 <= score <= total
    ensures Percentage(score, total) == 100 <==> 200 * score >= 199 * total
    ensures total < 200 ==> (Percentage(score, total) == 100 <==> score == total)
  {
    var p := Percentage(score, total);
    if p == 100 {
      assert 200 * total <= 200 * score + total;
    } else {
      assert p <= 99;
      assert 200 * score + total < 2 * total * p + 2 * total;
      assert 2 * total * p <= 2 * total * 99 by {
        ProductSign(2 * total, p - 99);
      }
    }
  }

  /** The rounding is what makes 199 correct of 200 show as 100%. */
  lemma NearlyPerfectShowsHundred()
    ensures Percentage(199, 200) == 100
  {
    PercentageHundred(199, 200);
  }

  datatype Rank = Novice | Apprentice | Expert | Grandmaster

  /** The rank shown for a percentage: >= 90, >= 80, >= 60, else Novice. */
  function RankOf(percentage: int): (r: Rank)
    ensures r == Grandmaster <==> percentage >= 90
    ensures r == Expert <==> 80 <= percentage < 90
    ensures r == Apprentice <==> 60 <= percentage < 80
    ensures r == Novice <==> percentage < 60
  {
    if percentage >= 90 then Grandmaster
    else if percentage >= 80 then Expert
    else if percentage >= 60 then Apprentice
    else Novice
  }

  /** The ordinal of a rank, lowest first. */
  function RankLevel(r: Rank): (level: nat)
    ensures level < 4
  {
    match r
    case Novice => 0
    case Apprentice => 1
    case Expert => 2
    case Grandmaster => 3
  }

  /** The exact threshold boundaries. */
  lemma RankBoundaries()
    ensures RankOf(100) == Grandmaster && RankOf(90) == Grandmaster
    ensures RankOf(89) == Expert && RankOf(80) == Expert
    ensures RankOf(79) == Apprentice && RankOf(60) == Apprentice
    ensures RankOf(59) == Novice && RankOf(0) == Novice
  {
  }

  /** A higher percentage never earns a lower rank, and each rank covers
      exactly its band of percentages. */
  lemma RankMonotone(p: int, q: int)
    requires p <= q
    ensures RankLevel(RankOf(p)) <= RankLevel(RankOf(q))
    ensures RankOf(p) == Grandmaster <==> 90 <= p
    ensures RankOf(p) == Expert <==> 80 <= p < 90
    ensures RankOf(p) == Apprentice <==> 60 <= p < 80
    ensures RankOf(p) == Novice <==> p < 60
  {
  }

  /** A quiz of ten questions with seven answered correctly scores 70%, an Apprentice. */
  lemma SevenOfTen()
    ensures Percentage(7, 10) == 70 && RankOf(Percentage(7, 10)) == Apprentice
  {
  }

  /** The ids of the questions of `quiz`. */
  function QuestionIds(quiz: seq<QuizQuestion>): set<string> {
    set i | 0 <= i < |quiz| :: quiz[i].id
  }

  /** The result emitted when a run completes at time `now` (the topic is
      added later by the application). */
  function ResultOf(quiz: seq<QuizQuestion>, answers: map<string, int>, now: int): (r: QuizResult)
    requires 0 < |quiz|
    ensures r.completed && r.total == |quiz| && 0 <= r.score <= r.total
    ensures r.score == r.total <==> forall i :: 0 <= i < |quiz| ==> AnsweredCorrectly(quiz[i], answers)
    ensures r.score == Score(quiz, answers)
    ensures r.percentage == Some(Percentage(r.score, r.total)) && 0 <= r.percentage.value <= 100
    ensures r.answers == answers && r.timestamp == Some(now) && r.topic.None?
  {
    FullScoreIffAllCorrect(quiz, answers);
    var score := Score(quiz, answers);
    QuizResult(score, |quiz|, true, answers, Some(now), None, Some(Percentage(score, |quiz|)))
  }

  class QuizSession {
    const quiz: seq<QuizQuestion>
    var currentQuestionIdx: nat
    var selectedOption: Option<nat>
    var showExplanation: bool
    var answers: map<string, int>
    var isCompleted: bool

    /** The index addresses a question, answers are keyed by question ids,
        and a completed run stands on the last question. */
    ghost predicate Valid()
      reads this
    {
      && 0 < |quiz|
      && currentQuestionIdx < |quiz|
      && answers.Keys <= QuestionIds(quiz)
      && (isCompleted ==> currentQuestionIdx == |quiz| - 1)
    }

    ghost predicate IsInitial()
      reads this
    {
      && currentQuestionIdx == 0
      && selectedOption == None
      && !showExplanation
      && answers == map[]
      && !isCompleted
    }

    constructor (quiz: seq<QuizQuestion>)
      requires 0 < |quiz|
      ensures this.quiz == quiz
      ensures Valid() && IsInitial()
    {
      this.quiz := quiz;
      currentQuestionIdx := 0;
      selectedOption := None;
      showExplanation := false;
      answers := map[];
      isCompleted := false;
    }

    /** Choosing an option: ignored once the answer is revealed. */
    method Select(optionIdx: nat)
      requires Valid()
      modifies this
      ensures Valid()
      ensures old(showExplanation) ==> selectedOption == old(selectedOption)
      ensures !old(showExplanation) ==> selectedOption == Some(optionIdx)
      ensures currentQuestionIdx == old(currentQuestionIdx) && showExplanation == old(showExplanation)
      ensures answers == old(answers) && isCompleted == old(isCompleted)
    {
      if showExplanation {
        return;
      }
      selectedOption := Some(optionIdx);
    }

    /** Checking the answer (only offered once an option is selected):
        records it for the current question and reveals the explanation. */
    method Check()
      requires Valid() && selectedOption.Some?
      modifies this
      ensures Valid()
      ensures showExplanation
      ensures answers == old(answers)[quiz[currentQuestionIdx].id := old(selectedOption).value]
      ensures forall id :: id in old(answers) && id != quiz[currentQuestionIdx].id
                ==> id in answers && answers[id] == old(answers)[id]
      ensures currentQuestionIdx == old(currentQuestionIdx) && selectedOption == old(selectedOption)
      ensures isCompleted == old(isCompleted)
    {
      showExplanation := true;
      answers := answers[quiz[currentQuestionIdx].id := selectedOption.value];
    }

    /** Counts the questions answered correctly, one question at a time. */
    method CalculateScore() returns (score: nat)
      requires Valid()
      ensures score == Score(quiz, answers)
    {
      score := 0;
      var i := 0;
      while i < |quiz|
        invariant 0 <= i <= |quiz|
        invariant score == Score(quiz[..i], answers)
      {
        assert quiz[..i + 1][..i] == quiz[..i];
        if quiz[i].id in answers && answers[quiz[i].id] == quiz[i].correctAnswerIndex {
          score := score + 1;
        }
        i := i + 1;
      }
      assert quiz[..i] == quiz;
    }

    /** Moving on: to the next question, or, on the last one, completing the
        run. The completion (false to true) emits exactly one result. */
    method Next(now: int) returns (emitted: Option<QuizResult>)
      requires Valid()
      modifies this
      ensures Valid()
      ensures old(currentQuestionIdx) < |quiz| - 1 ==>
                && currentQuestionIdx == old(currentQuestionIdx) + 1
                && selectedOption == None && !showExplanation
                && isCompleted == old(isCompleted)
      ensures old(currentQuestionIdx) == |quiz| - 1 ==>
                && currentQuestionIdx == old(currentQuestionIdx)
                && selectedOption == old(selectedOption)
                && showExplanation == old(showExplanation)
                && isCompleted
      ensures answers == old(answers)
      ensures emitted.Some? <==> !old(isCompleted) && isCompleted
      ensures emitted.Some? ==> emitted.value == ResultOf(quiz, answers, now)
    {
      emitted := None;
      if currentQuestionIdx < |quiz| - 1 {
        currentQuestionIdx := currentQuestionIdx + 1;
        selectedOption := None;
        showExplanation := false;
      } else {
        var wasCompleted := isCompleted;
        isCompleted := true;
        if !wasCompleted {
          var score := CalculateScore();
          emitted := Some(QuizResult(score, |quiz|, true, answers, Some(now), None,
                                     Some(Percentage(score, |quiz|))));
        }
      }
    }

    /** Retrying: back to the initial state of a fresh run. */
    method Retry()
      requires Valid()
      modifies this
      ensures Valid() && IsInitial()
    {
      isCompleted := false;
      currentQuestionIdx := 0;
      selectedOption := None;
      showExplanation := false;
      answers := map[];
    }
  }
}
