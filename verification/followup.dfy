/**
 * The final-draft page: the follow-up questions and their answers, the guard in
 * front of the final generation, and the copy of the generated document the editor
 * works on.
 */
module FollowUp {
  import opened Wrappers
  import opened Strings

  /** What the generation endpoint returns. */
  datatype FinalBrd = FinalBrd(brdDocument: string, reviewFeedback: string)

  /** What the previous page hands over in the navigation state; a missing field is
      `None`. */
  datatype LocationState = LocationState(
    questions: Option<seq<string>>,
    content: Option<string>,
    summary: Option<string>,
    projectId: Option<string>,
    uploadDate: Option<string>)

  /** The distinct strings of a question list. */
  function QuestionSet(qs: seq<string>): set<string> {
    set q | q in qs
  }

  /** Every question of the list mapped to an empty answer. */
  function Unanswered(qs: seq<string>): (m: map<string, string>)
    ensures m.Keys == QuestionSet(qs)
    ensures forall q :: q in m ==> m[q] == ""
  {
    map q | q in qs :: ""
  }

  /** `questions.filter(q => q !== x)`: the list without any occurrence of x. */
  function RemoveAll(qs: seq<string>, x: string): (r: seq<string>)
    ensures |r| <= |qs| && x !in r
  {
    if qs == [] then [] else (if qs[0] == x then [] else [qs[0]]) + RemoveAll(qs[1..], x)
  }

  /** RemoveAll drops x and keeps every other question. */
  lemma {:induction false} RemoveAllSpec(qs: seq<string>, x: string)
    ensures x !in RemoveAll(qs, x)
    ensures forall y :: y != x ==> (y in RemoveAll(qs, x) <==> y in qs)
    ensures |RemoveAll(qs, x)| <= |qs|
    ensures x !in qs ==> RemoveAll(qs, x) == qs
    ensures x in qs ==> |RemoveAll(qs, x)| < |qs|
  {
    if qs != [] {
      RemoveAllSpec(qs[1..], x);
      assert qs == [qs[0]] + qs[1..];
    }
  }

  /** RemoveAll keeps the order of the remaining questions: it works piece by piece. */
  lemma {:induction false} RemoveAllAppend(a: seq<string>, b: seq<string>, x: string)
    ensures RemoveAll(a + b, x) == RemoveAll(a, x) + RemoveAll(b, x)
  {
    if a == [] {
      assert a + b == b;
    } else {
      assert (a + b)[1..] == a[1..] + b;
      RemoveAllAppend(a[1..], b, x);
    }
  }

  /** Removing x leaves exactly the questions other than x as keys. */
  lemma RemoveAllKeys(qs: seq<string>, x: string)
    ensures QuestionSet(RemoveAll(qs, x)) == QuestionSet(qs) - {x}
  {
    RemoveAllSpec(qs, x);
  }

  /** The questions the page offers a delete button for: those that do not start with
      one of the three protected openings. */
  predicate Removable(q: string)
    ensures |q| < 11 ==> Removable(q)
  {
    !("What is the" <= q) && !("Who are the" <= q) && !("Are there any" <= q)
  }

  /** `Object.values(answers).some(a => !a.trim())`: some answer is blank. */
  predicate SomeBlank(answers: map<string, string>) {
    exists q :: q in answers && IsBlank(answers[q])
  }

  /** `!brdId`: the route parameter is missing or empty. */
  predicate MissingId(brdId: Option<string>) {
    brdId.None? || brdId.value == ""
  }

  /** The guard of `handleGenerateFinalBrd`: a BRD id and no blank answer. */
  predicate CanGenerate(brdId: Option<string>, answers: map<string, string>)
    ensures CanGenerate(brdId, answers) ==> brdId.Some? && brdId.value != ""
  {
    !MissingId(brdId) && !SomeBlank(answers)
  }

  /** The generate button's `disabled` flag. */
  predicate GenerateDisabled(generating: bool, answers: map<string, string>)
    ensures generating ==> GenerateDisabled(generating, answers)
    ensures !generating && answers == map[] ==> !GenerateDisabled(generating, answers)
  {
    generating || SomeBlank(answers)
  }

  /** Generation goes ahead exactly when the id is present and every answer has a
      character other than whitespace; with no question at all only the id matters;
      and an enabled button with an id always passes the guard. */
  lemma CanGenerateSpec(brdId: Option<string>, answers: map<string, string>)
    ensures CanGenerate(brdId, answers) <==>
      (brdId.Some? && brdId.value != "" && forall q :: q in answers ==> !AllWhitespace(answers[q]))
    ensures answers == map[] ==> (CanGenerate(brdId, answers) <==> !MissingId(brdId))
    ensures !GenerateDisabled(false, answers) && !MissingId(brdId) ==> CanGenerate(brdId, answers)
    ensures GenerateDisabled(false, answers) <==> (exists q :: q in answers && AllWhitespace(answers[q]))
  {
    forall q | q in answers ensures IsBlank(answers[q]) <==> AllWhitespace(answers[q]) {
      BlankIffAllWhitespace(answers[q]);
    }
  }

  /** A freshly initialised list of questions is all unanswered, so generation waits
      for an answer to each unless there are none. */
  lemma FreshQuestionsBlock(brdId: Option<string>, qs: seq<string>)
    ensures CanGenerate(brdId, Unanswered(qs)) <==> (!MissingId(brdId) && qs == [])
  {
    if qs != [] {
      assert qs[0] in Unanswered(qs);
      BlankIffAllWhitespace("");
    }
  }

  /** The page's state. */
  class FinalDraftPage {
    var questions: seq<string>
    var answers: map<string, string>
    var initialContent: string
    var initialSummary: string
    var projectId: string
    var uploadDate: string
    var finalBrd: Option<FinalBrd>
    var generating: bool
    var newQuestion: string
    var editedBrdContent: string

    /** The answer keys are exactly the questions on the list. */
    predicate Valid()
      reads this
    {
      answers.Keys == QuestionSet(questions)
    }

    /** The page's first render, before any effect has run. */
    constructor()
      ensures questions == [] && answers == map[] && finalBrd.None? && !generating
      ensures newQuestion == "" && editedBrdContent == ""
      ensures initialContent == "" && initialSummary == "" && projectId == "" && uploadDate == ""
      ensures Valid()
    {
      questions := [];
      answers := map[];
      initialContent := "";
      initialSummary := "";
      projectId := "";
      uploadDate := "";
      finalBrd := None;
      generating := false;
      newQuestion := "";
      editedBrdContent := "";
    }

    /** The `forEach` that gives every incoming question an empty answer. */
    static method InitialAnswers(qs: seq<string>) returns (m: map<string, string>)
      ensures m == Unanswered(qs)
    {
      m := map[];
      var i := 0;
      while i < |qs|
        invariant 0 <= i <= |qs|
        invariant m == Unanswered(qs[..i])
      {
        assert qs[..i + 1] == qs[..i] + [qs[i]];
        m := m[qs[i] := ""];
        i := i + 1;
      }
      assert qs[..i] == qs;
    }

    /** The mount effect: with navigation state, the fields take its values (an absent
        list is empty, an absent date is `now`) and every question gets an empty
        answer; without it the page leaves (the result is false) and nothing changes. */
    method Initialise(state: Option<LocationState>, now: string) returns (ok: bool)
      modifies this
      ensures state.None? ==> !ok && unchanged(this)
      ensures state.Some? ==> (
        && ok
        && questions == state.value.questions.GetOr([])
        && answers == Unanswered(questions)
        && initialContent == state.value.content.GetOr("")
        && initialSummary == state.value.summary.GetOr("")
        && projectId == state.value.projectId.GetOr("")
        && uploadDate == (if state.value.uploadDate.GetOr("") == "" then now else state.value.uploadDate.value))
      ensures state.Some? ==> Valid()
      ensures finalBrd == old(finalBrd) && generating == old(generating)
      ensures newQuestion == old(newQuestion) && editedBrdContent == old(editedBrdContent)
    {
      if state.None? {
        return false;
      }
      var s := state.value;
      questions := s.questions.GetOr([]);
      initialContent := s.content.GetOr("");
      initialSummary := s.summary.GetOr("");
      projectId := s.projectId.GetOr("");
      uploadDate := if s.uploadDate.GetOr("") == "" then now else s.uploadDate.value;
      answers := InitialAnswers(questions);
      ok := true;
    }

    /** Typing an answer: only that question's answer changes. */
    method HandleAnswerChange(question: string, value: string)
      modifies this
      ensures initialContent == old(initialContent) && initialSummary == old(initialSummary)
      ensures projectId == old(projectId) && uploadDate == old(uploadDate)
      ensures answers == old(answers)[question := value]
      ensures questions == old(questions) && newQuestion == old(newQuestion)
      ensures finalBrd == old(finalBrd) && editedBrdContent == old(editedBrdContent) && generating == old(generating)
      ensures old(Valid()) && question in questions ==> Valid()
    {
      answers := answers[question := value];
    }

    /** Typing in the custom-question input. */
    method SetNewQuestion(value: string)
      modifies this
      ensures initialContent == old(initialContent) && initialSummary == old(initialSummary)
      ensures projectId == old(projectId) && uploadDate == old(uploadDate)
      ensures newQuestion == value
      ensures questions == old(questions) && answers == old(answers)
      ensures finalBrd == old(finalBrd) && editedBrdContent == old(editedBrdContent) && generating == old(generating)
    {
      newQuestion := value;
    }

    /** Add: a blank input changes nothing; otherwise the input, untrimmed, is
        appended, gets an empty answer (replacing the answer of an equal question
        already on the list) and the input is cleared. */
    method AddCustomQuestion()
      modifies this
      ensures initialContent == old(initialContent) && initialSummary == old(initialSummary)
      ensures projectId == old(projectId) && uploadDate == old(uploadDate)
      ensures IsBlank(old(newQuestion)) ==>
        questions == old(questions) && answers == old(answers) && newQuestion == old(newQuestion)
      ensures !IsBlank(old(newQuestion)) ==>
        && questions == old(questions) + [old(newQuestion)]
        && answers == old(answers)[old(newQuestion) := ""]
        && newQuestion == ""
      ensures finalBrd == old(finalBrd) && editedBrdContent == old(editedBrdContent) && generating == old(generating)
      ensures old(Valid()) ==> Valid()
    {
      if IsBlank(newQuestion) {
        return;
      }
      questions := questions + [newQuestion];
      answers := answers[newQuestion := ""];
      newQuestion := "";
    }

    /** Delete: every occurrence of the question and its answer go; the other questions
        keep their order and their answers. */
    method RemoveQuestion(question: string)
      modifies this
      ensures initialContent == old(initialContent) && initialSummary == old(initialSummary)
      ensures projectId == old(projectId) && uploadDate == old(uploadDate)
      ensures questions == RemoveAll(old(questions), question)
      ensures answers == old(answers) - {question}
      ensures newQuestion == old(newQuestion)
      ensures finalBrd == old(finalBrd) && editedBrdContent == old(editedBrdContent) && generating == old(generating)
      ensures old(Valid()) ==> Valid()
    {
      RemoveAllKeys(questions, question);
      questions := RemoveAll(questions, question);
      answers := answers - {question};
    }

    /** Generate: refused (false) unless the guard holds; otherwise the request is
        made, `response` is its outcome (None when it failed), and on success the
        final BRD and the editor's copy of it are set. `generating` is false again
        when the call returns. */
    method HandleGenerateFinalBrd(brdId: Option<string>, response: Option<FinalBrd>) returns (started: bool)
      modifies this
      ensures initialContent == old(initialContent) && initialSummary == old(initialSummary)
      ensures projectId == old(projectId) && uploadDate == old(uploadDate)
      ensures started <==> CanGenerate(brdId, old(answers))
      ensures !started ==> unchanged(this)
      ensures started && response.Some? ==>
        finalBrd == response && editedBrdContent == response.value.brdDocument
      ensures started && response.None? ==>
        finalBrd == old(finalBrd) && editedBrdContent == old(editedBrdContent)
      ensures started ==> !generating
      ensures questions == old(questions) && answers == old(answers) && newQuestion == old(newQuestion)
    {
      if !CanGenerate(brdId, answers) {
        return false;
      }
      started := true;
      generating := true;
      if response.Some? {
        finalBrd := response;
        editedBrdContent := response.value.brdDocument;
      }
      generating := false;
    }

    /** The effect on `finalBrd`: once there is one, the editor's copy is its document. */
    method SyncEditedContent()
      modifies this
      ensures initialContent == old(initialContent) && initialSummary == old(initialSummary)
      ensures projectId == old(projectId) && uploadDate == old(uploadDate)
      ensures finalBrd.Some? ==> editedBrdContent == finalBrd.value.brdDocument
      ensures finalBrd.None? ==> editedBrdContent == old(editedBrdContent)
      ensures finalBrd == old(finalBrd) && questions == old(questions) && answers == old(answers)
      ensures newQuestion == old(newQuestion) && generating == old(generating)
    {
      if finalBrd.Some? {
        editedBrdContent := finalBrd.value.brdDocument;
      }
    }

    /** The editor's save: the page's copy becomes the saved text. */
    method HandleEditorSave(content: string)
      modifies this
      ensures initialContent == old(initialContent) && initialSummary == old(initialSummary)
      ensures projectId == old(projectId) && uploadDate == old(uploadDate)
      ensures editedBrdContent == content
      ensures finalBrd == old(finalBrd) && questions == old(questions) && answers == old(answers)
      ensures newQuestion == old(newQuestion) && generating == old(generating)
    {
      editedBrdContent := content;
    }
  }
}
