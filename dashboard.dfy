// The dashboard: statistics derived, with no state of their own, from the
// quiz history (oldest entry first).

module Dashboard {
  import opened Types

  /** `percentage || 0`: a missing percentage counts as 0. */
  function Pct(h: QuizResult): int {
    match h.percentage
    case Some(p) => p
    case None => 0
  }

  /** Every recorded percentage lies in [0, 100], as every emitted result's does. */
  ghost predicate PercentagesInRange(history: seq<QuizResult>) {
    forall i :: 0 <= i < |history| ==> 0 <= Pct(history[i]) <= 100
  }

  /** The sum of the percentages, accumulated oldest first; with every
      percentage in [0, 100] it lies in [0, 100 n]. */
  function SumPercent(history: seq<QuizResult>): (r: int)
    ensures PercentagesInRange(history) ==> 0 <= r <= 100 * |history|
  {
    if history == [] then 0
    else
      var init := history[..|history| - 1];
      assert forall i :: 0 <= i < |init| ==> init[i] == history[i];
      SumPercent(init) + Pct(history[|history| - 1])
  }

  /** The rounded mean percentage, 0 for an empty history. */
  function AvgScore(history: seq<QuizResult>): (r: int)
    ensures history == [] ==> r == 0
    ensures history != [] ==>
              2 * |history| * r <= 2 * SumPercent(history) + |history| < 2 * |history| * r + 2 * |history|
  {
    if |history| > 0 then RoundDiv(SumPercent(history), |history|) else 0
  }

  /** The average of in-range percentages is itself in [0, 100]. */
  lemma AvgScoreInRange(history: seq<QuizResult>)
    requires PercentagesInRange(history)
    ensures 0 <= AvgScore(history) <= 100
  {
    if history != [] {
      RoundDivPercentRange(SumPercent(history), |history|);
    }
  }

  /** The number of entries scoring 80% or more. */
  function MasteryCount(history: seq<QuizResult>): (r: nat)
    ensures r <= |history|
  {
    if history == [] then 0
    else MasteryCount(history[..|history| - 1]) + (if Pct(history[|history| - 1]) >= 80 then 1 else 0)
  }

  /** Mastery counts every entry exactly when every entry scored 80% or more. */
  lemma {:induction false} MasteryCountAll(history: seq<QuizResult>)
    ensures MasteryCount(history) == |history| <==> forall i :: 0 <= i < |history| ==> Pct(history[i]) >= 80
  {
    if history != [] {
      var init := history[..|history| - 1];
      assert forall i :: 0 <= i < |init| ==> init[i] == history[i];
      MasteryCountAll(init);
    }
  }

  /** The two-entry history of 100% and 50% averages 75% with one mastered topic. */
  lemma TwoQuizScenario(a: QuizResult, b: QuizResult)
    requires a.percentage == Some(100) && b.percentage == Some(50)
    ensures AvgScore([a, b]) == 75 && MasteryCount([a, b]) == 1
  {
    assert [a, b][..1] == [a] && [a][..0] == [];
    assert Pct(a) == 100 && Pct(b) == 50;
    assert SumPercent([a]) == 100;
    assert SumPercent([a, b]) == 150;
    assert RoundDiv(150, 2) == 75;
  }

  datatype Encouragement = StartPrompt | OnFire | GreatProgress | DontGiveUp

  /** The greeting line: the start prompt exactly for the empty history,
      and otherwise the tier the 90 / 70 thresholds put the average in. */
  function EncouragementFor(history: seq<QuizResult>): (r: Encouragement)
    ensures r == StartPrompt <==> history == []
    ensures history != [] ==>
              (r == OnFire <==> AvgScore(history) >= 90)
              && (r == GreatProgress <==> 70 <= AvgScore(history) < 90)
              && (r == DontGiveUp <==> AvgScore(history) < 70)
  {
    var avg := AvgScore(history);
    if |history| == 0 then StartPrompt
    else if avg >= 90 then OnFire
    else if avg >= 70 then GreatProgress
    else DontGiveUp
  }

  /** One point of the trend graph. */
  datatype Point = Point(x: nat, y: int, caption: string)

  /** `topic?.substring(0, 10) + '...'`; a missing topic prints as "undefined". */
  function TopicLabel(topic: Option<string>): (r: string)
    ensures topic.Some? ==> |r| == (if |topic.value| < 10 then |topic.value| else 10) + 3
    ensures topic.Some? ==> r[..|r| - 3] <= topic.value && r[|r| - 3..] == "..."
    ensures topic.None? ==> r == "undefined..."
  {
    match topic
    case Some(t) => (if |t| < 10 then t else t[..10]) + "..."
    case None => "undefined..."
  }

  /** The last min(10, n) entries, oldest first. */
  function RecentWindow(history: seq<QuizResult>): (w: seq<QuizResult>)
    ensures |w| == if |history| < 10 then |history| else 10
    ensures w == history[|history| - |w|..]
  {
    if |history| < 10 then history else history[|history| - 10..]
  }

  /** The trend series: the recent window, x = position in it, y = percentage or 0. */
  function Trend(history: seq<QuizResult>): (r: seq<Point>)
    ensures |r| == |RecentWindow(history)|
    ensures forall i :: 0 <= i < |r| ==>
              && r[i].x == i && r[i].y == Pct(history[|history| - |r| + i])
              && r[i].caption == TopicLabel(history[|history| - |r| + i].topic)
  {
    var w := RecentWindow(history);
    assert forall i :: 0 <= i < |w| ==> w[i] == history[|history| - |w| + i];
    seq(|w|, i requires 0 <= i < |w| => Point(i, Pct(w[i]), TopicLabel(w[i].topic)))
  }

  /** The graph is drawn only with at least two points. */
  predicate ShowsGraph(history: seq<QuizResult>) {
    |history| > 1
  }

  /** A drawn graph has at least two points, the newest entry is its last
      point, and appending an entry slides the window by one. */
  lemma TrendAfterAppend(history: seq<QuizResult>, e: QuizResult)
    ensures ShowsGraph(history + [e]) <==> history != []
    ensures ShowsGraph(history) ==> |Trend(history)| >= 2
    ensures var t := Trend(history + [e]); t[|t| - 1].y == Pct(e)
    ensures |history| >= 10 ==>
              forall i :: 0 <= i < 9 ==> Trend(history + [e])[i].y == Trend(history)[i + 1].y
  {
    var h' := history + [e];
    assert h'[|h'| - 1] == e;
    if |history| >= 10 {
      forall i | 0 <= i < 9
        ensures Trend(h')[i].y == Trend(history)[i + 1].y
      {
        assert h'[|h'| - 10 + i] == history[|history| - 10 + i + 1];
      }
    }
  }

  /** The reverse of a sequence. */
  function Reverse<T>(s: seq<T>): (r: seq<T>)
    ensures |r| == |s|
    ensures forall i :: 0 <= i < |s| ==> r[i] == s[|s| - 1 - i]
  {
    if s == [] then [] else [s[|s| - 1]] + Reverse(s[..|s| - 1])
  }

  /** The recent-activity list: the first min(5, n) entries of the reversed history. */
  function RecentQuizzes(history: seq<QuizResult>): (r: seq<QuizResult>)
    ensures |r| == if |history| < 5 then |history| else 5
    ensures forall i :: 0 <= i < |r| ==> r[i] == history[|history| - 1 - i]
  {
    var rev := Reverse(history);
    if |rev| < 5 then rev else rev[..5]
  }

  datatype Badge = Excellent | Good | NeedsWork

  /** The badge of one entry: >= 80 Excellent, >= 60 Good, else Needs Work. */
  function BadgeOf(h: QuizResult): (r: Badge)
    ensures r == Excellent <==> Pct(h) >= 80
    ensures r == Good <==> 60 <= Pct(h) < 80
    ensures r == NeedsWork <==> Pct(h) < 60
  {
    if Pct(h) >= 80 then Excellent
    else if Pct(h) >= 60 then Good
    else NeedsWork
  }

  /** An entry counts towards mastery exactly when its badge is Excellent,
      and a missing percentage earns Needs Work. */
  lemma BadgeAgreesWithMastery(h: QuizResult)
    ensures BadgeOf(h) == Excellent <==> MasteryCount([h]) == 1
    ensures h.percentage.None? ==> BadgeOf(h) == NeedsWork
  {
    assert [h][..0] == [];
  }

  /** The total number of questions answered over the history; with
      non-negative question counts it is non-negative. */
  function TotalQuestions(history: seq<QuizResult>): (r: int)
    ensures (forall i :: 0 <= i < |history| ==> history[i].total >= 0) ==> r >= 0
  {
    if history == [] then 0
    else
      var init := history[..|history| - 1];
      assert forall i :: 0 <= i < |init| ==> init[i] == history[i];
      TotalQuestions(init) + history[|history| - 1].total
  }

  /** Appending an entry adds its question count; the other statistics move by one entry. */
  lemma StatsAfterAppend(history: seq<QuizResult>, e: QuizResult)
    ensures TotalQuestions(history + [e]) == TotalQuestions(history) + e.total
    ensures SumPercent(history + [e]) == SumPercent(history) + Pct(e)
    ensures MasteryCount(history + [e]) == MasteryCount(history) + (if Pct(e) >= 80 then 1 else 0)
    ensures RecentQuizzes(history + [e])[0] == e
  {
    assert (history + [e])[..|history|] == history;
  }

  /** With non-negative question counts the total never shrinks as the
      history grows: every earlier history totals no more. */
  lemma {:induction false} TotalQuestionsGrows(history: seq<QuizResult>)
    requires forall i :: 0 <= i < |history| ==> history[i].total >= 0
    ensures forall n :: 0 <= n <= |history| ==> TotalQuestions(history[..n]) <= TotalQuestions(history)
  {
    if history != [] {
      var init := history[..|history| - 1];
      assert forall i :: 0 <= i < |init| ==> init[i] == history[i];
      TotalQuestionsGrows(init);
      forall n | 0 <= n <= |history| ensures TotalQuestions(history[..n]) <= TotalQuestions(history) {
        if n < |history| {
          assert history[..n] == init[..n];
        } else {
          assert history[..n] == history;
        }
      }
    }
  }

  /** The study streak: the number of tests, capped at 5. */
  function Streak(history: seq<QuizResult>): (r: nat)
    ensures r <= 5 && r <= |history|
    ensures r == 5 || r == |history|
  {
    if |history| > 0 then (if |history| < 5 then |history| else 5) else 0
  }
}
