// Entities shared by the study-aid application: the views, the study set,
// flashcards, quiz questions and quiz results, plus the outcome of a call to
// the external generation service and JavaScript's Math.round of a quotient.

module Types {

  datatype Option<T> = None | Some(value: T)

  /** What one call to the external generation service came back with:
      the generated value, or a failure (network, quota, unparseable reply). */
  datatype Outcome<T> = Ok(value: T) | Err

  /** The five screens of the application. */
  datatype AppView = HOME | UPLOAD | NOTES | FLASHCARDS | QUIZ

  /** A flashcard's study status: 'new' | 'known' | 'review'. */
  datatype CardStatus = New | Known | Review

  datatype Flashcard = Flashcard(id: string, front: string, back: string, status: CardStatus)

  datatype QuizQuestion = QuizQuestion(
    id: string,
    question: string,
    options: seq<string>,
    correctAnswerIndex: int,
    explanation: string)

  /** A completed quiz run; `answers` maps a question id to the chosen option. */
  datatype QuizResult = QuizResult(
    score: int,
    total: int,
    completed: bool,
    answers: map<string, int>,
    timestamp: Option<int>,
    topic: Option<string>,
    percentage: Option<int>)

  /** The single live study set. */
  datatype StudySet = StudySet(
    id: string,
    title: string,
    originalContent: string,
    notesMarkdown: string,
    flashcards: seq<Flashcard>,
    quiz: seq<QuizQuestion>,
    isGenerating: bool,
    fileName: Option<string>,
    fileType: Option<string>)

  /** A file picked on the upload screen; `data` is its base64 text. */
  datatype FileUpload = FileUpload(name: string, fileType: string, data: string)

  /** `Math.round(a / n)` for a positive divisor: the integer nearest to a/n,
      halves rounded up (towards positive infinity), computed exactly. */
  function RoundDiv(a: int, n: int): (r: int)
    requires 0 < n
    ensures 2 * n * r <= 2 * a + n < 2 * n * r + 2 * n
  {
    (2 * a + n) / (2 * n)
  }

  /** A positive factor does not change the sign of a product. */
  lemma ProductSign(n: int, x: int)
    requires 0 < n
    ensures n * x <= 0 ==> x <= 0
    ensures n * x > 0 ==> x > 0
  {
  }

  /** A dividend between 0 and 100 times the divisor rounds to a value in [0, 100]. */
  lemma RoundDivPercentRange(a: int, n: int)
    requires 0 < n && 0 <= a <= 100 * n
    ensures 0 <= RoundDiv(a, n) <= 100
  {
    var r := RoundDiv(a, n);
    assert n * (2 * r - 201) <= 0 by {
      assert 2 * n * r <= 2 * a + n <= 201 * n;
    }
    assert n * (2 * r + 1) > 0 by {
      assert 0 <= 2 * a < 2 * n * r + n;
    }
    ProductSign(n, 2 * r - 201);
    ProductSign(n, 2 * r + 1);
  }
}
