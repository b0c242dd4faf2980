// The application state: the single live study set, the current view and the
// append-only quiz history, with the handlers that change them.
//
// Each handler that calls the generation service is split in two steps: the
// first sets the busy flag and says what is sent; the second applies the
// service's outcome (Ok(value) or Err). The composed method runs both in one
// step. The date string and the service's replies are parameters.

module StudyApp {
  import opened Types
  import Sidebar

  /** The text the notes service returns when the model's reply is empty. */
  const FallbackNotes: string := "Failed to generate notes."

  /** The notes the service hands back for a reply: the reply, or the
      fallback text when the reply is empty. Never empty. */
  function NotesOrFallback(reply: string): (notes: string)
    ensures notes != []
    ensures reply != [] ==> notes == reply
    ensures reply == [] ==> notes == FallbackNotes
  {
    if reply != [] then reply else FallbackNotes
  }

  /** The title of a processed set: the file's name, or else "Text Notes "
      followed by the date. */
  function Title(file: Option<FileUpload>, today: string): (t: string)
    ensures t != []
    ensures file.Some? && file.value.name != [] ==> t == file.value.name
    ensures file.None? || file.value.name == [] ==> t == "Text Notes " + today
  {
    if file.Some? && file.value.name != [] then file.value.name else "Text Notes " + today
  }

  /** The source kept for regeneration: the text, or else a placeholder
      naming the file, or else nothing. */
  function OriginalContent(text: string, file: Option<FileUpload>): (c: string)
    ensures c == [] <==> text == [] && file.None?
    ensures text != [] ==> c == text
    ensures text == [] && file.Some? ==> c == "File: " + file.value.name
  {
    if text != [] then text
    else if file.Some? then "File: " + file.value.name
    else ""
  }

  /** Replaying a kept source without a file keeps it: regeneration never
      changes what is kept, and a file-only set is replayed as its placeholder. */
  lemma RegenerateKeepsSource(c: string, name: string, fileType: string, data: string)
    ensures OriginalContent(c, None) == c
    ensures var placeholder := OriginalContent("", Some(FileUpload(name, fileType, data)));
            OriginalContent(placeholder, None) == placeholder == "File: " + name
  {
  }

  /** The topic recorded with a quiz result: the file name, or else the
      title, or else "General Knowledge". Never empty. */
  function Topic(s: StudySet): (t: string)
    ensures t != []
    ensures s.fileName.Some? && s.fileName.value != [] ==> t == s.fileName.value
    ensures (s.fileName.None? || s.fileName.value == []) && s.title != [] ==> t == s.title
    ensures (s.fileName.None? || s.fileName.value == []) && s.title == [] ==> t == "General Knowledge"
  {
    if s.fileName.Some? && s.fileName.value != [] then s.fileName.value
    else if s.title != [] then s.title
    else "General Knowledge"
  }

  /** After processing succeeds, the topic of later quiz results is the
      file's name for a named file, and otherwise the text title. */
  lemma TopicAfterProcessing(s: StudySet, file: Option<FileUpload>, today: string)
    ensures var s' := s.(title := Title(file, today),
                         fileName := if file.Some? then Some(file.value.name) else None);
            Topic(s') == Title(file, today)
  {
  }

  /** The file part of a notes request: the file's data and its type. */
  datatype FilePart = FilePart(data: string, mimeType: string)

  /** What a processing step sends and what it applies once the service
      answers: the text, the optional file part, the title and the file. */
  datatype NotesRequest = NotesRequest(
    text: string,
    filePart: Option<FilePart>,
    title: string,
    file: Option<FileUpload>)

  /** The request for `text` and `file`, titled with the date `today`. */
  function RequestFor(text: string, file: Option<FileUpload>, today: string): (req: NotesRequest)
    ensures req.text == text && req.file == file && req.title == Title(file, today)
    ensures req.filePart.Some? <==> file.Some?
    ensures file.Some? ==>
              req.filePart.value.data == file.value.data && req.filePart.value.mimeType == file.value.fileType
  {
    NotesRequest(
      text,
      if file.Some? then Some(FilePart(file.value.data, file.value.fileType)) else None,
      Title(file, today),
      file)
  }

  /** The study set the application starts with. */
  function InitialStudySet(): (s: StudySet)
    ensures s.notesMarkdown == [] && s.flashcards == [] && s.quiz == [] && !s.isGenerating
    ensures s.fileName.None? && s.fileType.None?
  {
    StudySet("default", "Untitled Set", "", "", [], [], false, None, None)
  }

  class App {
    var currentView: AppView
    var studySet: StudySet
    var quizHistory: seq<QuizResult>

    /** Whether notes exist, which enables the study screens. */
    predicate HasNotes()
      reads this
    {
      studySet.notesMarkdown != []
    }

    /** A study screen is shown only while notes exist. */
    ghost predicate Valid()
      reads this
    {
      Sidebar.NeedsNotes(currentView) ==> HasNotes()
    }

    /** The upload screen shows its spinner while the first notes are
        generated: only during a request, and only while no notes exist. */
    predicate UploadBusy()
      reads this
      ensures UploadBusy() ==> studySet.isGenerating && !HasNotes()
    {
      studySet.isGenerating && studySet.notesMarkdown == []
    }

    constructor ()
      ensures Valid()
      ensures currentView == HOME && studySet == InitialStudySet() && quizHistory == []
    {
      currentView := HOME;
      studySet := InitialStudySet();
      quizHistory := [];
    }

    /** Processing starts: the busy flag is set and the request is built. */
    method BeginProcessing(text: string, file: Option<FileUpload>, today: string) returns (req: NotesRequest)
      requires Valid()
      modifies this
      ensures Valid()
      ensures req == RequestFor(text, file, today)
      ensures studySet == old(studySet).(isGenerating := true)
      ensures currentView == old(currentView) && quizHistory == old(quizHistory)
    {
      studySet := studySet.(isGenerating := true);
      req := RequestFor(text, file, today);
    }

    /** Processing ends. On success the notes, title, kept source and file
        name are replaced, the busy flag cleared and the notes screen shown;
        on failure only the busy flag is cleared. */
    method FinishProcessing(req: NotesRequest, reply: Outcome<string>)
      requires Valid()
      modifies this
      ensures Valid()
      ensures reply.Ok? ==>
                && studySet == old(studySet).(
                     title := req.title,
                     originalContent := OriginalContent(req.text, req.file),
                     notesMarkdown := NotesOrFallback(reply.value),
                     isGenerating := false,
                     fileName := if req.file.Some? then Some(req.file.value.name) else None)
                && currentView == NOTES
      ensures reply.Err? ==>
                studySet == old(studySet).(isGenerating := false) && currentView == old(currentView)
      ensures quizHistory == old(quizHistory)
    {
      match reply {
        case Ok(notes) =>
          studySet := studySet.(
            title := req.title,
            originalContent := OriginalContent(req.text, req.file),
            notesMarkdown := NotesOrFallback(notes),
            isGenerating := false,
            fileName := if req.file.Some? then Some(req.file.value.name) else None);
          currentView := NOTES;
        case Err =>
          studySet := studySet.(isGenerating := false);
      }
    }

    /** Processing material in one step. Flashcards, quiz and history are
        never touched, and a failure changes nothing but the busy flag. */
    method ProcessMaterial(text: string, file: Option<FileUpload>, today: string, reply: Outcome<string>)
      requires Valid()
      modifies this
      ensures Valid()
      ensures reply.Ok? ==>
                && studySet.title == Title(file, today)
                && studySet.originalContent == OriginalContent(text, file)
                && studySet.notesMarkdown == NotesOrFallback(reply.value)
                && studySet.fileName == (if file.Some? then Some(file.value.name) else None)
                && currentView == NOTES
      ensures reply.Err? ==>
                && studySet == old(studySet).(isGenerating := false)
                && currentView == old(currentView)
      ensures !studySet.isGenerating
      ensures studySet.flashcards == old(studySet.flashcards) && studySet.quiz == old(studySet.quiz)
      ensures studySet.id == old(studySet.id) && studySet.fileType == old(studySet.fileType)
      ensures quizHistory == old(quizHistory)
    {
      var req := BeginProcessing(text, file, today);
      FinishProcessing(req, reply);
    }

    /** The upload screen's submit: the button is disabled, and nothing
        happens, while the upload screen shows busy or without text or a file. */
    method SubmitUpload(text: string, file: Option<FileUpload>, today: string, reply: Outcome<string>)
      requires Valid()
      modifies this
      ensures Valid()
      ensures old(UploadBusy()) || (text == [] && file.None?) ==>
                studySet == old(studySet) && currentView == old(currentView)
      ensures !old(UploadBusy()) && (text != [] || file.Some?) && reply.Ok? ==>
                && studySet.title == Title(file, today)
                && studySet.fileName == (if file.Some? then Some(file.value.name) else None)
                && studySet.originalContent == OriginalContent(text, file)
                && studySet.originalContent != []
                && studySet.notesMarkdown == NotesOrFallback(reply.value)
                && !studySet.isGenerating
                && currentView == NOTES
      ensures !old(UploadBusy()) && (text != [] || file.Some?) && reply.Err? ==>
                studySet == old(studySet).(isGenerating := false) && currentView == old(currentView)
      ensures quizHistory == old(quizHistory)
    {
      if UploadBusy() || (text == [] && file.None?) {
        return;
      }
      ProcessMaterial(text, file, today, reply);
    }

    /** Regenerating the notes replays the kept source with no file: the
        button is disabled, and nothing happens, while a request is pending;
        otherwise on success the kept source stays as it was, the file name
        is cleared and the title becomes a dated text title. */
    method Regenerate(today: string, reply: Outcome<string>)
      requires Valid()
      modifies this
      ensures Valid()
      ensures old(studySet.isGenerating) ==> studySet == old(studySet) && currentView == old(currentView)
      ensures !old(studySet.isGenerating) && reply.Ok? ==>
                && studySet.originalContent == old(studySet.originalContent)
                && studySet.fileName.None?
                && studySet.title == "Text Notes " + today
                && studySet.notesMarkdown == NotesOrFallback(reply.value)
                && currentView == NOTES
      ensures !old(studySet.isGenerating) && reply.Err? ==>
                studySet == old(studySet).(isGenerating := false) && currentView == old(currentView)
      ensures !old(studySet.isGenerating) ==> !studySet.isGenerating
      ensures studySet.id == old(studySet.id) && studySet.fileType == old(studySet.fileType)
      ensures studySet.flashcards == old(studySet.flashcards) && studySet.quiz == old(studySet.quiz)
      ensures quizHistory == old(quizHistory)
    {
      if studySet.isGenerating {
        return;
      }
      ProcessMaterial(studySet.originalContent, None, today, reply);
    }

    /** Flashcard generation starts: a no-op without notes; otherwise the
        busy flag is set and the notes are sent. */
    method BeginGenerateFlashcards() returns (sent: Option<string>)
      requires Valid()
      modifies this
      ensures Valid()
      ensures sent.None? <==> !old(HasNotes())
      ensures sent.None? ==> studySet == old(studySet)
      ensures sent.Some? ==>
                sent.value == old(studySet.notesMarkdown) && studySet == old(studySet).(isGenerating := true)
      ensures currentView == old(currentView) && quizHistory == old(quizHistory)
    {
      if studySet.notesMarkdown == [] {
        return None;
      }
      studySet := studySet.(isGenerating := true);
      sent := Some(studySet.notesMarkdown);
    }

    /** Flashcard generation ends: success replaces the whole deck, failure
        keeps it; either way the busy flag is cleared. */
    method FinishGenerateFlashcards(reply: Outcome<seq<Flashcard>>)
      requires Valid()
      modifies this
      ensures Valid()
      ensures reply.Ok? ==> studySet == old(studySet).(flashcards := reply.value, isGenerating := false)
      ensures reply.Err? ==> studySet == old(studySet).(isGenerating := false)
      ensures currentView == old(currentView) && quizHistory == old(quizHistory)
    {
      match reply {
        case Ok(cards) =>
          studySet := studySet.(flashcards := cards, isGenerating := false);
        case Err =>
          studySet := studySet.(isGenerating := false);
      }
    }

    /** Generating flashcards in one step. */
    method GenerateFlashcards(reply: Outcome<seq<Flashcard>>)
      requires Valid()
      modifies this
      ensures Valid()
      ensures !old(HasNotes()) ==> studySet == old(studySet)
      ensures old(HasNotes()) && reply.Ok? ==>
                studySet == old(studySet).(flashcards := reply.value, isGenerating := false)
      ensures old(HasNotes()) && reply.Err? ==> studySet == old(studySet).(isGenerating := false)
      ensures currentView == old(currentView) && quizHistory == old(quizHistory)
    {
      var sent := BeginGenerateFlashcards();
      if sent.Some? {
        FinishGenerateFlashcards(reply);
      }
    }

    /** Quiz generation starts: a no-op without notes; otherwise the busy
        flag is set and the notes are sent. */
    method BeginGenerateQuiz() returns (sent: Option<string>)
      requires Valid()
      modifies this
      ensures Valid()
      ensures sent.None? <==> !old(HasNotes())
      ensures sent.None? ==> studySet == old(studySet)
      ensures sent.Some? ==>
                sent.value == old(studySet.notesMarkdown) && studySet == old(studySet).(isGenerating := true)
      ensures currentView == old(currentView) && quizHistory == old(quizHistory)
    {
      if studySet.notesMarkdown == [] {
        return None;
      }
      studySet := studySet.(isGenerating := true);
      sent := Some(studySet.notesMarkdown);
    }

    /** Quiz generation ends: success replaces the whole quiz, failure keeps
        it; either way the busy flag is cleared. */
    method FinishGenerateQuiz(reply: Outcome<seq<QuizQuestion>>)
      requires Valid()
      modifies this
      ensures Valid()
      ensures reply.Ok? ==> studySet == old(studySet).(quiz := reply.value, isGenerating := false)
      ensures reply.Err? ==> studySet == old(studySet).(isGenerating := false)
      ensures currentView == old(currentView) && quizHistory == old(quizHistory)
    {
      match reply {
        case Ok(quiz) =>
          studySet := studySet.(quiz := quiz, isGenerating := false);
        case Err =>
          studySet := studySet.(isGenerating := false);
      }
    }

    /** Generating a quiz in one step. */
    method GenerateQuiz(reply: Outcome<seq<QuizQuestion>>)
      requires Valid()
      modifies this
      ensures Valid()
      ensures !old(HasNotes()) ==> studySet == old(studySet)
      ensures old(HasNotes()) && reply.Ok? ==>
                studySet == old(studySet).(quiz := reply.value, isGenerating := false)
      ensures old(HasNotes()) && reply.Err? ==> studySet == old(studySet).(isGenerating := false)
      ensures currentView == old(currentView) && quizHistory == old(quizHistory)
    {
      var sent := BeginGenerateQuiz();
      if sent.Some? {
        FinishGenerateQuiz(reply);
      }
    }

    /** A completed quiz: its result, tagged with the set's topic, is
        appended to the history; earlier entries stay as they were. */
    method QuizComplete(result: QuizResult)
      requires Valid()
      modifies this
      ensures Valid()
      ensures quizHistory == old(quizHistory) + [result.(topic := Some(Topic(studySet)))]
      ensures |quizHistory| == |old(quizHistory)| + 1
      ensures quizHistory[|quizHistory| - 1].topic.Some?
      ensures studySet == old(studySet) && currentView == old(currentView)
    {
      quizHistory := quizHistory + [result.(topic := Some(Topic(studySet)))];
    }

    /** A click on the sidebar item for `target`: ignored when the item is disabled. */
    method ClickNavItem(target: AppView)
      requires Valid()
      modifies this
      ensures Valid()
      ensures currentView == Sidebar.AfterItemClick(old(currentView), Sidebar.ItemFor(target, HasNotes()))
      ensures Sidebar.NeedsNotes(target) && !HasNotes() ==> currentView == old(currentView)
      ensures !Sidebar.NeedsNotes(target) || HasNotes() ==> currentView == target
      ensures studySet == old(studySet) && quizHistory == old(quizHistory)
    {
      Sidebar.ClickKeepsNotesRule(currentView, target, HasNotes());
      currentView := Sidebar.AfterItemClick(currentView, Sidebar.ItemFor(target, HasNotes()));
    }

    /** A click on the logo: back to the dashboard. */
    method ClickLogo()
      requires Valid()
      modifies this
      ensures Valid()
      ensures currentView == HOME
      ensures studySet == old(studySet) && quizHistory == old(quizHistory)
    {
      currentView := Sidebar.AfterLogoClick(currentView);
    }

    /** The dashboard's call to action: to the upload screen. */
    method StartFromDashboard()
      requires Valid()
      modifies this
      ensures Valid()
      ensures currentView == UPLOAD
      ensures studySet == old(studySet) && quizHistory == old(quizHistory)
    {
      currentView := UPLOAD;
    }
  }

  /** A session from a fresh start: text is processed, a deck and a quiz are
      generated, a quiz is completed. The history grows by exactly that one
      result, whose topic is the dated text title. */
  method FirstSession(text: string, today: string, notes: string, cards: seq<Flashcard>,
                      quiz: seq<QuizQuestion>, result: QuizResult) returns (app: App)
    requires text != []
    ensures app.Valid() && app.HasNotes()
    ensures app.studySet.flashcards == cards && app.studySet.quiz == quiz
    ensures app.studySet.originalContent == text
    ensures |app.quizHistory| == 1
    ensures app.quizHistory[0].topic == Some("Text Notes " + today)
  {
    app := new App();
    app.SubmitUpload(text, None, today, Ok(notes));
    assert Topic(app.studySet) == "Text Notes " + today;
    app.GenerateFlashcards(Ok(cards));
    app.GenerateQuiz(Ok(quiz));
    app.ClickNavItem(QUIZ);
    app.QuizComplete(result);
  }
}
