/** The quiz engine: the question bank, the question queue built from the
    selected chapters, and the session's quiz entries (`questions`, `total`,
    `index`, `score`, `answered`) together with the login entries (`user`,
    `skip`), as a class whose methods are the page's transitions. */
module Quiz {
  import opened Wrappers
  import opened Text
  import opened Identity
  import opened Scoring
  import opened Results

  datatype Feedback = Feedback(correct: string, incorrect: string)

  /** One question; `answerIndex` is meant to index `options`, but nothing
      in the data guarantees it. */
  datatype Question = Question(text: string, options: seq<string>, answerIndex: int, feedback: Feedback)

  /** Chapter name to its questions, in file order. */
  type Bank = map<string, seq<Question>>

  /** Every selected chapter is one of the bank's chapters (the selector
      only offers the bank's keys). */
  predicate Selectable(bank: Bank, selected: seq<string>) {
    forall i :: 0 <= i < |selected| ==> selected[i] in bank
  }

  /** The questions of the selected chapters, concatenated in selection order. */
  function Pool(bank: Bank, selected: seq<string>): seq<Question>
    requires Selectable(bank, selected)
  {
    if selected == [] then []
    else Pool(bank, selected[..|selected| - 1]) + bank[selected[|selected| - 1]]
  }

  /** Pooling a selection made of two parts pools each part in turn. */
  lemma {:induction false} PoolConcat(bank: Bank, a: seq<string>, b: seq<string>)
    requires Selectable(bank, a + b)
    ensures Selectable(bank, a) && Selectable(bank, b)
    ensures Pool(bank, a + b) == Pool(bank, a) + Pool(bank, b)
  {
    assert forall i :: 0 <= i < |a| ==> a[i] == (a + b)[i];
    assert forall i :: 0 <= i < |b| ==> b[i] == (a + b)[|a| + i];
    if b == [] {
      assert a + b == a;
    } else {
      var init := b[..|b| - 1];
      assert (a + b)[..|a + b| - 1] == a + init;
      PoolConcat(bank, a, init);
    }
  }

  /** The number of questions in the selected chapters, chapter by chapter. */
  function QuestionCount(bank: Bank, selected: seq<string>): nat
    requires Selectable(bank, selected)
  {
    if selected == [] then 0 else |bank[selected[0]]| + QuestionCount(bank, selected[1..])
  }

  /** The pool holds as many questions as the selected chapters together. */
  lemma {:induction false} PoolSize(bank: Bank, selected: seq<string>)
    requires Selectable(bank, selected)
    ensures |Pool(bank, selected)| == QuestionCount(bank, selected)
  {
    if selected != [] {
      assert selected == [selected[0]] + selected[1..];
      PoolConcat(bank, [selected[0]], selected[1..]);
      assert Pool(bank, [selected[0]]) == bank[selected[0]] by {
        assert [selected[0]][..0] == [];
      }
      PoolSize(bank, selected[1..]);
    }
  }

  /** A question is in the pool exactly when one of the selected chapters holds it. */
  lemma {:induction false} PoolMembers(bank: Bank, selected: seq<string>, q: Question)
    requires Selectable(bank, selected)
    ensures q in Pool(bank, selected) <==> exists i :: 0 <= i < |selected| && q in bank[selected[i]]
  {
    if selected != [] {
      var init := selected[..|selected| - 1];
      PoolMembers(bank, init, q);
      assert forall i :: 0 <= i < |init| ==> init[i] == selected[i];
    }
  }

  /** Python's `options.index(choice)`: the first position holding the choice. */
  function IndexOf(options: seq<string>, choice: string): (r: nat)
    requires choice in options
    ensures r < |options| && options[r] == choice
    ensures forall j :: 0 <= j < r ==> options[j] != choice
  {
    if options[0] == choice then 0 else 1 + IndexOf(options[1..], choice)
  }

  /** The answer check of the source: the chosen option's position is the
      question's `answer_index`. */
  predicate IsCorrect(q: Question, choice: string)
    requires choice in q.options
  {
    IndexOf(q.options, choice) == q.answerIndex
  }

  /** The radio's value is one of the question's options. */
  predicate IsOption(q: Question, choice: Option<string>) {
    choice.Some? && choice.value in q.options
  }

  predicate DistinctOptions(q: Question) {
    forall i, j :: 0 <= i < j < |q.options| ==> q.options[i] != q.options[j]
  }

  /** With distinct options and an answer index in range, a choice is correct
      exactly when it is the option at the answer index. */
  lemma CorrectIffAnswerOption(q: Question, choice: string)
    requires choice in q.options && DistinctOptions(q)
    requires 0 <= q.answerIndex < |q.options|
    ensures IsCorrect(q, choice) <==> choice == q.options[q.answerIndex]
  {
  }

  /** With an answer index outside the options, no choice is ever correct. */
  lemma NeverCorrect(q: Question, choice: string)
    requires choice in q.options
    requires !(0 <= q.answerIndex < |q.options|)
    ensures !IsCorrect(q, choice)
  {
  }

  /** What the quiz page shows for a started quiz. */
  datatype Screen = Shows(question: Question) | Finished | IndexError

  /** The display guard as written: it indexes the queue only when the index
      is past its end, and reports the quiz finished otherwise. */
  function RenderAsWritten(questions: seq<Question>, index: nat): Screen {
    if index >= |questions| then IndexError else Finished
  }

  /** As written, no question is ever shown: a fresh quiz over a non-empty
      queue reads as finished at once, and a finished one fails to index. */
  lemma RenderAsWrittenNeverShows(questions: seq<Question>, index: nat)
    ensures !RenderAsWritten(questions, index).Shows?
    ensures |questions| > 0 ==> RenderAsWritten(questions, 0) == Finished
    ensures RenderAsWritten(questions, |questions|) == IndexError
  {
  }

  /** The display guard as intended: show the question at the index while
      one is left, and report the quiz finished once the index passes the end. */
  function Render(questions: seq<Question>, index: nat): (s: Screen)
    ensures s.Shows? <==> index < |questions|
    ensures s.Shows? ==> s.question == questions[index]
    ensures s != IndexError
  {
    if index < |questions| then Shows(questions[index]) else Finished
  }

  class Session {
    var user: Option<string>
    var skip: bool
    /** Whether the five quiz entries are present. */
    var started: bool
    var questions: seq<Question>
    var total: nat
    var index: nat
    var score: nat
    var answered: nat

    /** A logged-in user passed the login rule, and the counters satisfy
        `score <= answered == index <= total == |questions|`; with no quiz
        the quiz entries hold nothing. */
    ghost predicate Valid()
      reads this
    {
      && (user.Some? ==> Trimmed(user.value) && EndsWith(user.value, Domain))
      && (started ==> score <= answered == index <= total == |questions|)
      && (!started ==> questions == [] && total == 0 && index == 0 && score == 0 && answered == 0)
    }

    /** A new session: nobody logged in, login not skipped, no quiz. */
    constructor ()
      ensures Valid()
      ensures user == None && !skip && !started
    {
      user, skip := None, false;
      started, questions := false, [];
      total, index, score, answered := 0, 0, 0, 0;
    }

    /** The login form is offered only while nobody is logged in and the
        login was not skipped. */
    predicate LoginFormShown()
      reads this
    {
      user.None? && !skip
    }

    /** The login button; it exists only while the form is shown. */
    method Login(email: string) returns (accepted: bool)
      requires Valid()
      modifies this`user
      ensures Valid()
      ensures accepted <==> old(LoginFormShown()) && AcceptsEmail(email)
      ensures user == if accepted then Some(Strip(email)) else old(user)
    {
      accepted := false;
      if LoginFormShown() {
        var name := Strip(email);
        if EndsWith(name, Domain) {
          user := Some(name);
          accepted := true;
        }
      }
    }

    /** The skip button; it exists only while the form is shown, and once
        pressed the form is no longer offered. */
    method Skip()
      requires Valid()
      modifies this`skip
      ensures Valid()
      ensures skip == (old(skip) || old(LoginFormShown()))
      ensures !LoginFormShown()
    {
      if LoginFormShown() {
        skip := true;
      }
    }

    /** The start button. With no chapter selected the page stops before
        offering it, so nothing happens; otherwise the queue becomes some
        shuffle of the selected chapters' questions and the counters are zeroed. */
    method Start(bank: Bank, selected: seq<string>) returns (ok: bool)
      requires Valid()
      requires Selectable(bank, selected)
      modifies this`started, this`questions, this`total, this`index, this`score, this`answered
      ensures Valid()
      ensures ok <==> selected != []
      ensures !ok ==> unchanged(this)
      ensures ok ==> started && multiset(questions) == multiset(Pool(bank, selected))
      ensures ok ==> total == |questions| == QuestionCount(bank, selected)
      ensures ok ==> index == 0 && score == 0 && answered == 0
    {
      if selected == [] {
        return false;
      }
      var queue: seq<Question> := [];
      for i := 0 to |selected|
        invariant queue == Pool(bank, selected[..i])
      {
        assert selected[..i + 1][..i] == selected[..i];
        queue := queue + bank[selected[i]];
      }
      assert selected[..|selected|] == selected;
      var shuffled :| multiset(shuffled) == multiset(queue);
      PoolSize(bank, selected);
      assert |shuffled| == |multiset(shuffled)| == |queue|;
      started, questions := true, shuffled;
      total := |questions|;
      index, score, answered := 0, 0, 0;
      ok := true;
    }

    /** The corrected display guard applied to the session. */
    function CurrentScreen(): (s: Option<Screen>)
      reads this
      requires Valid()
      ensures s.None? <==> !started
      ensures s.Some? ==> (s.value.Shows? <==> !Completed())
      ensures s.Some? && s.value.Shows? ==> s.value.question == questions[index]
    {
      if started then Some(Render(questions, index)) else None
    }

    /** The quiz is complete once the index reaches the total. */
    predicate Completed()
      reads this
    {
      started && index >= total
    }

    /** The validate button on the current question. A choice that is not
        one of the options (the radio gives None when there are no options)
        makes `options.index` raise before anything is updated. Otherwise the
        score goes up by one exactly when the choice is correct, and the
        answer count and the index go up by one each. Also returns the
        feedback message shown. */
    method Answer(choice: Option<string>) returns (valid: bool, correct: bool, message: string)
      requires Valid() && started && index < |questions|
      modifies this`score, this`answered, this`index
      ensures Valid()
      ensures valid <==> IsOption(questions[old(index)], choice)
      ensures !valid ==> !correct && unchanged(this)
      ensures valid ==> (correct <==> IsCorrect(questions[old(index)], choice.value))
      ensures valid ==> message == if correct then questions[old(index)].feedback.correct
                                   else questions[old(index)].feedback.incorrect
      ensures valid ==> index == old(index) + 1 && answered == old(answered) + 1
      ensures valid ==> score == old(score) + (if correct then 1 else 0)
    {
      var q := questions[index];
      valid, correct, message := false, false, "";
      if choice.None? || choice.value !in q.options {
        return;
      }
      valid := true;
      correct := IndexOf(q.options, choice.value) == q.answerIndex;
      if correct {
        message := q.feedback.correct;
        score := score + 1;
      } else {
        message := q.feedback.incorrect;
      }
      answered := answered + 1;
      index := index + 1;
    }

    /** Try the same quiz again: the counters are zeroed and the queue,
        in its current order, is kept. */
    method Restart()
      requires Valid()
      modifies this`index, this`score, this`answered
      ensures Valid()
      ensures index == 0 && score == 0 && answered == 0
      ensures started == old(started) && questions == old(questions) && total == old(total)
    {
      index, score, answered := 0, 0, 0;
    }

    /** Choose other chapters: all five quiz entries are dropped. */
    method Reselect()
      requires Valid()
      modifies this`started, this`questions, this`total, this`index, this`score, this`answered
      ensures Valid()
      ensures !started && !Completed() && CurrentScreen().None?
    {
      started, questions := false, [];
      total, index, score, answered := 0, 0, 0, 0;
    }
  }

  /** Validating an answer, then, when that answer completes the quiz,
      banding the score and appending the result to the history. A choice
      that is not an option aborts before any of this. */
  method Submit(s: Session, store: ResultsStore, selected: seq<string>, choice: Option<string>)
    returns (valid: bool, correct: bool, band: Option<Band>)
    requires s.Valid() && s.started && s.index < |s.questions|
    modifies s`score, s`answered, s`index, store
    ensures s.Valid()
    ensures valid <==> IsOption(s.questions[old(s.index)], choice)
    ensures !valid ==> !correct && unchanged(s)
    ensures valid ==> (correct <==> IsCorrect(s.questions[old(s.index)], choice.value))
    ensures valid ==> s.index == old(s.index) + 1 && s.answered == old(s.answered) + 1
    ensures valid ==> s.score == old(s.score) + (if correct then 1 else 0)
    ensures band.Some? <==> valid && s.Completed()
    ensures band.Some? ==> s.answered > 0 && band.value == BandOf(s.score, s.answered)
    ensures store.file ==
              if band.Some?
              then Some(old(store.History()) + [ResultRecord(UserLabel(s.user), selected, s.score, s.answered)])
              else old(store.file)
  {
    var message;
    valid, correct, message := s.Answer(choice);
    if valid && s.index >= s.total {
      band := Some(BandOf(s.score, s.answered));
      store.Append(ResultRecord(UserLabel(s.user), selected, s.score, s.answered));
    } else {
      band := None;
    }
  }

  /** A logged-in session's results view never shows a guest record: the
      session invariant keeps the user a Gmail address. */
  lemma SessionViewExcludesGuests(s: Session, history: seq<ResultRecord>)
    requires s.Valid() && s.user.Some?
    ensures forall x :: x in Visible(history, s.user) ==> x.user != Guest
  {
    VisibleExcludesGuests(history, s.user.value);
  }

  /** A shuffle of two questions is one of their two orders. */
  lemma ShuffleOfTwo(shuffled: seq<Question>, a: Question, b: Question)
    requires multiset(shuffled) == multiset([a, b])
    ensures shuffled == [a, b] || shuffled == [b, a]
  {
    assert |shuffled| == |multiset([a, b])| == 2;
    assert shuffled == [shuffled[0], shuffled[1]];
    assert multiset(shuffled) == multiset{shuffled[0], shuffled[1]};
    assert multiset([a, b]) == multiset{a, b};
    if shuffled[0] == a {
      assert multiset{shuffled[1]} == multiset{a, b} - multiset{a} == multiset{b};
    } else {
      assert shuffled[0] in multiset{a, b};
      assert shuffled[0] == b;
      assert multiset{shuffled[1]} == multiset{a, b} - multiset{b} == multiset{a};
    }
  }

  /** For a two-option question with its answer among them, the option at
      the answer index is correct and the other one is not. */
  lemma TwoOptionChoices(q: Question)
    requires |q.options| == 2 && q.options[0] != q.options[1]
    requires q.answerIndex == 0 || q.answerIndex == 1
    ensures IsCorrect(q, q.options[q.answerIndex])
    ensures !IsCorrect(q, q.options[1 - q.answerIndex])
  {
    CorrectIffAnswerOption(q, q.options[q.answerIndex]);
    CorrectIffAnswerOption(q, q.options[1 - q.answerIndex]);
  }

  /** A question with two distinct options, the answer being one of them. */
  predicate TwoOptions(q: Question) {
    |q.options| == 2 && q.options[0] != q.options[1] && (q.answerIndex == 0 || q.answerIndex == 1)
  }

  /** Answers the first question of a fresh two-question quiz correctly and
      the second wrongly: the quiz completes with 1 of 2, and the guest
      record is the only one in a history that did not exist. */
  method AnswerRightThenWrong(s: Session, store: ResultsStore, selected: seq<string>)
    returns (band: Option<Band>)
    requires s.Valid() && s.started && s.user == None
    requires |s.questions| == 2 && TwoOptions(s.questions[0]) && TwoOptions(s.questions[1])
    requires s.index == 0 && s.score == 0 && store.file == None
    modifies s`score, s`answered, s`index, store
    ensures s.score == 1 && s.answered == 2 && band == Some(Good)
    ensures store.History() == [ResultRecord(Guest, selected, 1, 2)]
  {
    var first, second := s.questions[0], s.questions[1];
    TwoOptionChoices(first);
    TwoOptionChoices(second);
    var right := first.options[first.answerIndex];
    var v, c, b := Submit(s, store, selected, Some(right));
    assert s.score == 1 && s.index == 1 && b == None;
    var wrong := second.options[1 - second.answerIndex];
    v, c, band := Submit(s, store, selected, Some(wrong));
  }

  /** One chapter of two questions, answered once correctly and once wrongly,
      without logging in: the score is 1 of 2, the band is "good", and the
      history holds exactly that one record, filed under the guest label. */
  method LoopsScenario() returns (score: nat, answered: nat, band: Option<Band>, history: seq<ResultRecord>)
    ensures score == 1 && answered == 2 && band == Some(Good)
    ensures history == [ResultRecord(Guest, ["loops"], 1, 2)]
  {
    var q1 := Question("first", ["a", "b"], 0, Feedback("right", "wrong"));
    var q2 := Question("second", ["c", "d"], 1, Feedback("right", "wrong"));
    var bank := map["loops" := [q1, q2]];
    var s := new Session();
    var store := new ResultsStore(None);
    var ok := s.Start(bank, ["loops"]);
    assert Pool(bank, ["loops"]) == [q1, q2] by {
      assert ["loops"][..0] == [];
    }
    ShuffleOfTwo(s.questions, q1, q2);
    assert TwoOptions(q1) && TwoOptions(q2);
    band := AnswerRightThenWrong(s, store, ["loops"]);
    score, answered, history := s.score, s.answered, store.History();
  }
}
