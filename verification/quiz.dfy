/** The quiz screen as a state machine: the name-entry gate, the answer upsert, the
    bounded question index with its animated next/previous transitions, the keyboard
    listener and the hand-off of the collected answers to the results screen.

    Each user action and each firing of the 300 ms animation timer is one atomic step.
    The machine is parameterised by the question list `qs` it walks through; the app
    runs it on `Catalogue`. */
module Quiz {
  import opened Wrappers
  import opened Text
  import opened Questions
  import opened ScoreCalculator

  /** The callback the animation timer will run, with the values its closure captured. */
  datatype Transition =
    | Forward(from: int, answers: seq<Answer>, name: string)
    | Back(from: int)

  /** The router state passed to the results screen. */
  datatype Handoff = Handoff(answers: seq<Answer>, totalQuestions: int, friendName: string)

  datatype Key = Enter | ArrowRight | ArrowLeft | OtherKey

  datatype Event =
    | NameInput(text: string)
    | StartClick
    | KeyDown(key: Key)
    | OptionClick(option: nat)
    | NextClick
    | PreviousClick
    | TimerFires

  /** The component's state. `listenerName` is the friend name the installed keydown
      listener saw when it was last installed; `handoff` is set once the quiz has
      navigated to the results screen. */
  datatype State = State(
    friendName: string,
    showNameInput: bool,
    index: int,
    answers: seq<Answer>,
    timer: Option<Transition>,
    handoff: Option<Handoff>,
    listenerName: string)
  {
    predicate IsAnimating() {
      timer.Some?
    }
  }

  /** The state on mounting: empty name, the name screen, question 0, no answers. */
  function Init(): State {
    State("", true, 0, [], None, None, "")
  }

  /** A question list the quiz can walk: not empty, ids 1, 2, ... in order, and every
      question well formed. */
  predicate QuizReady(qs: seq<Question>) {
    && |qs| > 0
    && forall i | 0 <= i < |qs| :: qs[i].id == i + 1 && WellFormedQuestion(qs[i])
  }

  lemma CatalogueReady()
    ensures QuizReady(Catalogue) && |Catalogue| == TotalQuestions
  {
    CatalogueWellFormed();
  }

  // ---------------------------------------------------------------------------
  // Answers

  /** The answer recorded when option `o` of question `q` is picked. */
  function AnswerFor(q: Question, o: Choice): (a: Answer)
    ensures o in q.options ==> Answers(q, a)
    ensures ValidEntry(Some(a)) <==> 1 <= o.points <= MaxPointsPerQuestion
  {
    Answer(q.id, Some(o), Some(o.points), q.category)
  }

  /** `findIndex` by question id: the first position holding an answer to `id`. */
  function FindIndex(answers: seq<Answer>, id: int): (r: Option<nat>)
    ensures r.Some? ==> r.value < |answers| && answers[r.value].questionId == id
    ensures r.Some? ==> forall j | 0 <= j < r.value :: answers[j].questionId != id
    ensures r.None? <==> forall j | 0 <= j < |answers| :: answers[j].questionId != id
  {
    if answers == [] then None
    else if answers[0].questionId == id then Some(0)
    else
      assert forall j | 1 <= j < |answers| :: answers[j] == answers[1..][j - 1];
      match FindIndex(answers[1..], id)
      case None => None
      case Some(k) => Some(k + 1)
  }

  /** The update-or-add of `handleAnswerSelect`: the first answer with the same
      question id is replaced, or the new answer is appended when there is none. */
  function Upsert(answers: seq<Answer>, a: Answer): (r: seq<Answer>)
    ensures var k := FindIndex(answers, a.questionId);
      && |r| == (if k.Some? then |answers| else |answers| + 1)
      && r[if k.Some? then k.value else |answers|] == a
      && forall j | 0 <= j < |answers| && (k.None? || j != k.value) :: r[j] == answers[j]
  {
    match FindIndex(answers, a.questionId)
    case Some(k) => answers[k := a]
    case None => answers + [a]
  }

  /** No two answers are for the same question. */
  predicate DistinctIds(answers: seq<Answer>) {
    forall i, j | 0 <= i < j < |answers| :: answers[i].questionId != answers[j].questionId
  }

  /** The positions holding an answer to question `id`. */
  function PositionsOf(answers: seq<Answer>, id: int): (r: set<nat>)
    ensures forall j: nat :: j in r <==> j < |answers| && answers[j].questionId == id
  {
    set j: nat | j < |answers| && answers[j].questionId == id
  }

  /** After the upsert there is exactly one answer to the question, it is the new one,
      and answers to distinct questions stay distinct; the list grows by one exactly
      when the question had no answer before. */
  lemma UpsertEffect(answers: seq<Answer>, a: Answer)
    requires DistinctIds(answers)
    ensures var r := Upsert(answers, a);
      && DistinctIds(r)
      && (exists k | 0 <= k < |r| :: PositionsOf(r, a.questionId) == {k} && r[k] == a)
      && (|r| == |answers| + 1 <==> PositionsOf(answers, a.questionId) == {})
      && (|r| == |answers| <==> PositionsOf(answers, a.questionId) != {})
  {
    var r := Upsert(answers, a);
    var k := FindIndex(answers, a.questionId);
    var p := if k.Some? then k.value else |answers|;
    assert PositionsOf(r, a.questionId) == {p};
    if k.Some? {
      assert k.value in PositionsOf(answers, a.questionId);
    } else {
      assert PositionsOf(answers, a.questionId) == {};
    }
  }

  /** `getCurrentSelectedAnswer`: the first answer to the current question, if any. */
  function CurrentSelectedAnswer(qs: seq<Question>, s: State): (r: Option<Answer>)
    requires 0 <= s.index < |qs|
    ensures r.Some? <==> exists j | 0 <= j < |s.answers| :: s.answers[j].questionId == qs[s.index].id
    ensures r.Some? ==> r.value.questionId == qs[s.index].id
  {
    match FindIndex(s.answers, qs[s.index].id)
    case Some(k) => Some(s.answers[k])
    case None => None
  }

  // ---------------------------------------------------------------------------
  // Handlers

  /** `handleFriendNameSubmit`, reading the friend name as `seen`: the name screen is
      left when the trimmed name is not empty. */
  function SubmitName(s: State, seen: string): (t: State)
    ensures t.showNameInput == (s.showNameInput && IsBlank(seen))
    ensures t == s.(showNameInput := t.showNameInput)
  {
    TrimEmptyIffBlank(seen);
    if Trim(seen) != [] then s.(showNameInput := false) else s
  }

  /** `handleAnswerSelect`: ignored while animating, otherwise the upsert of the
      current question's answer. */
  function SelectAnswer(qs: seq<Question>, s: State, o: Choice): (t: State)
    requires 0 <= s.index < |qs|
    ensures s.IsAnimating() ==> t == s
    ensures t == s.(answers := t.answers)
    ensures !s.IsAnimating() ==> CurrentSelectedAnswer(qs, t) == Some(AnswerFor(qs[s.index], o))
    ensures forall j | 0 <= j < |s.answers| && s.answers[j].questionId != qs[s.index].id ::
      j < |t.answers| && t.answers[j] == s.answers[j]
  {
    if s.IsAnimating() then s
    else s.(answers := Upsert(s.answers, AnswerFor(qs[s.index], o)))
  }

  /** `handleNext`, in a render whose friend name is `seen`: ignored while animating,
      otherwise the timer is started with the forward callback, which captured the
      index, the answers and the name of that render. */
  function Next(s: State, seen: string): (t: State)
    ensures s.IsAnimating() ==> t == s
    ensures t.IsAnimating() && t == s.(timer := t.timer)
    ensures !s.IsAnimating() ==> t.timer.value == Forward(s.index, s.answers, seen)
  {
    if s.IsAnimating() then s
    else s.(timer := Some(Forward(s.index, s.answers, seen)))
  }

  /** `handlePrevious`: ignored while animating or on the first question, otherwise
      the timer is started with the backward callback. */
  function Previous(s: State): (t: State)
    ensures s.IsAnimating() || s.index == 0 ==> t == s
    ensures t == s.(timer := t.timer)
    ensures !s.IsAnimating() && s.index != 0 ==> t.timer == Some(Back(s.index))
  {
    if s.IsAnimating() || s.index == 0 then s
    else s.(timer := Some(Back(s.index)))
  }

  /** The timer's callback: forward from the last question navigates to the results
      with the captured answers and name, forward from any other question moves one
      question on, backward moves one question back; the lock is released. */
  function Fire(qs: seq<Question>, s: State): (t: State)
    ensures !t.IsAnimating()
    ensures t == s.(timer := None, index := t.index, handoff := t.handoff)
    ensures t.handoff != s.handoff ==>
      s.timer.Some? && s.timer.value.Forward? && s.timer.value.from == |qs| - 1
    ensures t.index != s.index ==> s.timer.Some?
  {
    match s.timer
    case None => s
    case Some(Forward(from, answers, name)) =>
      if from == |qs| - 1 then s.(timer := None, handoff := Some(Handoff(answers, |qs|, name)))
      else s.(timer := None, index := from + 1)
    case Some(Back(from)) => s.(timer := None, index := from - 1)
  }

  /** One event, handled with `seen` as the friend name the keydown listener's closures
      hold. The buttons and the option list only exist on their own screen, and a
      disabled button does nothing. No handler goes back to the name screen, and the
      name can only be typed there. */
  function Handle(qs: seq<Question>, s: State, e: Event, seen: string): (t: State)
    requires 0 <= s.index < |qs|
    ensures t.listenerName == s.listenerName
    ensures t.showNameInput ==> s.showNameInput
    ensures !s.showNameInput ==> t.friendName == s.friendName
  {
    match e
    case NameInput(text) => if s.showNameInput then s.(friendName := text) else s
    case StartClick => if s.showNameInput then SubmitName(s, s.friendName) else s
    case KeyDown(k) =>
      if s.showNameInput then
        if k == Enter then SubmitName(s, seen) else s
      else if k == ArrowRight && CurrentSelectedAnswer(qs, s).Some? then Next(s, seen)
      else if k == ArrowLeft then Previous(s)
      else s
    case OptionClick(j) =>
      if !s.showNameInput && j < |qs[s.index].options| then SelectAnswer(qs, s, qs[s.index].options[j])
      else s
    case NextClick =>
      if !s.showNameInput && CurrentSelectedAnswer(qs, s).Some? && !s.IsAnimating() then Next(s, s.friendName)
      else s
    case PreviousClick =>
      if !s.showNameInput && s.index != 0 && !s.IsAnimating() then Previous(s)
      else s
    case TimerFires => Fire(qs, s)
  }

  /** The keydown effect's dependency list. */
  function Watched(s: State): (bool, int, seq<Answer>, bool) {
    (s.showNameInput, s.index, s.answers, s.IsAnimating())
  }

  /** The keydown effect re-installs its listener, closing over the current friend
      name, whenever the name screen flag, the index, the answers or the animation
      flag changed; the friend name is not among those dependencies. */
  function Refresh(before: State, after: State): (t: State)
    ensures t == after.(listenerName := t.listenerName)
    ensures Watched(before) != Watched(after) ==> t.listenerName == after.friendName
    ensures Watched(before) == Watched(after) ==> t == after
  {
    if || before.showNameInput != after.showNameInput
       || before.index != after.index
       || before.answers != after.answers
       || before.IsAnimating() != after.IsAnimating()
    then after.(listenerName := after.friendName)
    else after
  }

  /** One step as written: the keydown listener sees the name of its installation.
      Once the quiz has navigated away the component is gone and nothing changes. */
  function StepAsWritten(qs: seq<Question>, s: State, e: Event): (t: State)
    requires 0 <= s.index < |qs|
    ensures s.handoff.Some? ==> t == s
    ensures t.showNameInput ==> s.showNameInput
    ensures !s.showNameInput ==> t.friendName == s.friendName
  {
    if s.handoff.Some? then s else Refresh(s, Handle(qs, s, e, s.listenerName))
  }

  /** One step with the listener seeing the current friend name, as it would with the
      name among the effect's dependencies. */
  function Step(qs: seq<Question>, s: State, e: Event): (t: State)
    requires 0 <= s.index < |qs|
    ensures s.handoff.Some? ==> t == s
    ensures t.showNameInput ==> s.showNameInput
    ensures !s.showNameInput ==> t.friendName == s.friendName
  {
    if s.handoff.Some? then s else Refresh(s, Handle(qs, s, e, s.friendName))
  }

  // ---------------------------------------------------------------------------
  // The invariant

  /** `a` records a pick among the options of `q`. */
  predicate Answers(q: Question, a: Answer) {
    && a.questionId == q.id
    && a.selectedOption.Some?
    && a.selectedOption.value in q.options
    && a.points == Some(a.selectedOption.value.points)
    && a.category == q.category
  }

  /** Everything the invariant says except what the listener saw: the index is a
      question; the answers are one per question for a prefix of the list that reaches
      the current question; the name screen shows only before anything else happened
      and is left only with a name; a pending timer captured the current values; a
      hand-off carries the full answer list. */
  predicate InvCore(qs: seq<Question>, s: State) {
    && 0 <= s.index < |qs|
    && s.index <= |s.answers| <= |qs|
    && (forall j | 0 <= j < |s.answers| :: Answers(qs[j], s.answers[j]))
    && (s.showNameInput ==> s.index == 0 && s.answers == [] && s.timer.None? && s.handoff.None?)
    && (!s.showNameInput ==> !IsBlank(s.friendName))
    && (s.timer.Some? && s.timer.value.Forward? ==>
          s.timer.value == Forward(s.index, s.answers, s.friendName) && s.index < |s.answers|)
    && (s.timer.Some? && s.timer.value.Back? ==> s.timer.value.from == s.index > 0)
    && (s.handoff.Some? ==>
          s.handoff.value == Handoff(s.answers, |qs|, s.friendName) && |s.answers| == |qs|)
  }

  /** What holds in every reachable state: the core facts, and the listener saw the
      empty name on the name screen and the current name after it. */
  predicate Inv(qs: seq<Question>, s: State) {
    && InvCore(qs, s)
    && (s.showNameInput ==> s.listenerName == "")
    && (!s.showNameInput ==> s.listenerName == s.friendName)
  }

  lemma InitInv(qs: seq<Question>)
    requires QuizReady(qs)
    ensures Inv(qs, Init())
  {
  }

  /** With answers one per question in order, the answer to question `i + 1` is at
      position `i` when there is one. */
  lemma FindAnswered(qs: seq<Question>, answers: seq<Answer>, i: int)
    requires QuizReady(qs) && 0 <= i < |qs| && |answers| <= |qs|
    requires forall j | 0 <= j < |answers| :: Answers(qs[j], answers[j])
    ensures FindIndex(answers, qs[i].id) == if i < |answers| then Some(i) else None
  {
    var k := FindIndex(answers, qs[i].id);
    if k.Some? {
      assert answers[k.value].questionId == k.value + 1;
    }
  }

  lemma SelectCore(qs: seq<Question>, s: State, j: nat)
    requires QuizReady(qs) && InvCore(qs, s) && s.handoff.None? && !s.showNameInput
    requires j < |qs[s.index].options|
    ensures InvCore(qs, SelectAnswer(qs, s, qs[s.index].options[j]))
  {
    if !s.IsAnimating() {
      var q := qs[s.index];
      var a := AnswerFor(q, q.options[j]);
      FindAnswered(qs, s.answers, s.index);
      var r := Upsert(s.answers, a);
      assert forall k | 0 <= k < |r| :: Answers(qs[k], r[k]) by {
        forall k | 0 <= k < |r|
          ensures Answers(qs[k], r[k])
        {
          if k == s.index {
            assert r[k] == a;
          }
        }
      }
    }
  }

  lemma FireCore(qs: seq<Question>, s: State)
    requires QuizReady(qs) && InvCore(qs, s) && s.handoff.None?
    ensures InvCore(qs, Fire(qs, s))
  {
  }

  /** On the name screen every event keeps the core invariant. */
  lemma NameScreenCore(qs: seq<Question>, s: State, e: Event, seen: string)
    requires QuizReady(qs) && InvCore(qs, s) && s.showNameInput
    requires seen == s.friendName || IsBlank(seen)
    ensures InvCore(qs, Handle(qs, s, e, seen))
  {
  }

  /** After the name screen every event keeps the core invariant, the listener seeing
      the current name. */
  lemma QuizScreenCore(qs: seq<Question>, s: State, e: Event)
    requires QuizReady(qs) && InvCore(qs, s) && s.handoff.None? && !s.showNameInput
    ensures InvCore(qs, Handle(qs, s, e, s.friendName))
  {
    match e
    case KeyDown(k) =>
      if k == ArrowRight && CurrentSelectedAnswer(qs, s).Some? {
        NextCore(qs, s);
      } else if k == ArrowLeft {
        PreviousCore(qs, s);
      }
    case OptionClick(j) =>
      if j < |qs[s.index].options| {
        SelectCore(qs, s, j);
      }
    case NextClick =>
      if CurrentSelectedAnswer(qs, s).Some? && !s.IsAnimating() {
        NextCore(qs, s);
      }
    case PreviousClick =>
      if s.index != 0 && !s.IsAnimating() {
        PreviousCore(qs, s);
      }
    case TimerFires =>
      FireCore(qs, s);
    case NameInput(_) =>
    case StartClick =>
  }

  lemma NextCore(qs: seq<Question>, s: State)
    requires QuizReady(qs) && InvCore(qs, s) && s.handoff.None? && !s.showNameInput
    requires CurrentSelectedAnswer(qs, s).Some?
    ensures InvCore(qs, Next(s, s.friendName))
  {
    FindAnswered(qs, s.answers, s.index);
  }

  lemma PreviousCore(qs: seq<Question>, s: State)
    requires QuizReady(qs) && InvCore(qs, s) && s.handoff.None? && !s.showNameInput
    ensures InvCore(qs, Previous(s))
  {
  }

  /** Re-installing the listener after a handler restores the listener part of the
      invariant. */
  lemma RefreshInv(qs: seq<Question>, s: State, t: State)
    requires Inv(qs, s) && InvCore(qs, t)
    requires t.listenerName == s.listenerName
    requires t.showNameInput ==> s.showNameInput
    requires !s.showNameInput ==> t.friendName == s.friendName
    ensures Inv(qs, Refresh(s, t))
  {
  }

  lemma StepInv(qs: seq<Question>, s: State, e: Event)
    requires QuizReady(qs) && Inv(qs, s)
    ensures Inv(qs, Step(qs, s, e))
    ensures Inv(qs, StepAsWritten(qs, s, e))
  {
    if s.handoff.None? {
      if s.showNameInput {
        NameScreenCore(qs, s, e, s.friendName);
        NameScreenCore(qs, s, e, s.listenerName);
      } else {
        QuizScreenCore(qs, s, e);
      }
      RefreshInv(qs, s, Handle(qs, s, e, s.friendName));
      RefreshInv(qs, s, Handle(qs, s, e, s.listenerName));
    }
  }

  /** The state after a sequence of events. */
  function Run(qs: seq<Question>, s: State, events: seq<Event>): (t: State)
    requires QuizReady(qs) && Inv(qs, s)
    ensures Inv(qs, t)
    decreases |events|
  {
    if events == [] then s
    else
      StepInv(qs, s, events[0]);
      Run(qs, Step(qs, s, events[0]), events[1..])
  }

  /** The same, with the listener as written. */
  function RunAsWritten(qs: seq<Question>, s: State, events: seq<Event>): (t: State)
    requires QuizReady(qs) && Inv(qs, s)
    ensures Inv(qs, t)
    decreases |events|
  {
    if events == [] then s
    else
      StepInv(qs, s, events[0]);
      RunAsWritten(qs, StepAsWritten(qs, s, events[0]), events[1..])
  }

  // ---------------------------------------------------------------------------
  // Properties of single steps

  /** The name screen is left exactly when the start button is pressed on a name that
      is not blank. */
  lemma NameGate(qs: seq<Question>, s: State)
    requires Inv(qs, s) && s.showNameInput
    ensures !Step(qs, s, StartClick).showNameInput <==> !IsBlank(s.friendName)
    ensures !StepAsWritten(qs, s, StartClick).showNameInput <==> !IsBlank(s.friendName)
  {
  }

  /** No event other than the start button or Enter leaves the name screen, and those
      only on a name that is not blank. */
  lemma OnlySubmitLeavesNameScreen(qs: seq<Question>, s: State, e: Event)
    requires Inv(qs, s) && s.showNameInput
    ensures !Step(qs, s, e).showNameInput ==>
      (e == StartClick || e == KeyDown(Enter)) && !IsBlank(s.friendName)
  {
  }

  /** While the animation runs, picking an option, Next and Previous, by button or by
      key, change nothing. */
  lemma AnimationLock(qs: seq<Question>, s: State, e: Event)
    requires Inv(qs, s) && s.IsAnimating()
    requires e.OptionClick? || e == NextClick || e == PreviousClick || e == KeyDown(ArrowRight) || e == KeyDown(ArrowLeft)
    ensures Step(qs, s, e) == s
    ensures StepAsWritten(qs, s, e) == s
  {
  }

  /** Previous on the first question does nothing. */
  lemma PreviousAtFirst(qs: seq<Question>, s: State)
    requires Inv(qs, s) && s.index == 0
    ensures Step(qs, s, PreviousClick) == s
    ensures Step(qs, s, KeyDown(ArrowLeft)) == s
  {
  }

  /** Next, by button or by key, does nothing while the current question is
      unanswered. */
  lemma NextNeedsAnswer(qs: seq<Question>, s: State)
    requires Inv(qs, s) && CurrentSelectedAnswer(qs, s).None?
    ensures Step(qs, s, NextClick) == s
    ensures Step(qs, s, KeyDown(ArrowRight)) == s
  {
  }

  /** Picking option `j` leaves exactly one answer to the current question: one for
      that option, with its points and the question's category. Answers to other
      questions keep their places and values. */
  lemma SelectRecordsAnswer(qs: seq<Question>, s: State, j: nat)
    requires QuizReady(qs) && Inv(qs, s) && !s.showNameInput && !s.IsAnimating() && s.handoff.None?
    requires j < |qs[s.index].options|
    ensures var t := Step(qs, s, OptionClick(j));
      var q := qs[s.index];
      && PositionsOf(t.answers, q.id) == {s.index}
      && t.answers[s.index] == Answer(q.id, Some(q.options[j]), Some(q.options[j].points), q.category)
      && (forall k | 0 <= k < |s.answers| && k != s.index :: t.answers[k] == s.answers[k])
      && |t.answers| == if s.index < |s.answers| then |s.answers| else |s.answers| + 1
  {
    var q := qs[s.index];
    FindAnswered(qs, s.answers, s.index);
    var t := Step(qs, s, OptionClick(j));
    var h := Handle(qs, s, OptionClick(j), s.friendName);
    assert h == SelectAnswer(qs, s, q.options[j]);
    assert t == Refresh(s, h);
    assert t.answers == Upsert(s.answers, AnswerFor(q, q.options[j]));
    assert DistinctIds(s.answers) by {
      forall i, k | 0 <= i < k < |s.answers|
        ensures s.answers[i].questionId != s.answers[k].questionId
      {
        assert s.answers[i].questionId == i + 1 && s.answers[k].questionId == k + 1;
      }
    }
    UpsertEffect(s.answers, AnswerFor(q, q.options[j]));
  }

  /** The forward callback on the last question navigates with the answers, the
      question count and the friend name; on any other question it moves to the next
      one. The backward callback moves to the previous question. */
  lemma FireMoves(qs: seq<Question>, s: State)
    requires Inv(qs, s) && s.handoff.None? && s.timer.Some?
    ensures var t := Step(qs, s, TimerFires);
      && !t.IsAnimating()
      && (s.timer.value.Forward? && s.index == |qs| - 1 ==>
            t.handoff == Some(Handoff(s.answers, |qs|, s.friendName)))
      && (s.timer.value.Forward? && s.index < |qs| - 1 ==> t.handoff.None? && t.index == s.index + 1)
      && (s.timer.value.Back? ==> t.handoff.None? && t.index == s.index - 1)
  {
  }

  /** Next followed by the timer: on the last question the quiz navigates with the
      answers and the name the callback captured, on any other it moves one question
      on; nothing else changes and the lock is released. */
  lemma NextThenFire(qs: seq<Question>, s: State, seen: string)
    requires !s.IsAnimating()
    ensures var t := Fire(qs, Next(s, seen));
      && t == s.(index := t.index, handoff := t.handoff)
      && (s.index == |qs| - 1 ==> t.index == s.index && t.handoff == Some(Handoff(s.answers, |qs|, seen)))
      && (s.index != |qs| - 1 ==> t.index == s.index + 1 && t.handoff == s.handoff)
  {
  }

  /** Previous followed by the timer moves one question back, except on the first
      question, where nothing happens. */
  lemma PreviousThenFire(qs: seq<Question>, s: State)
    requires !s.IsAnimating()
    ensures var t := Fire(qs, Previous(s));
      && (s.index == 0 ==> t == s)
      && (s.index != 0 ==> t == s.(index := s.index - 1))
  {
  }

  // ---------------------------------------------------------------------------
  // The hand-off

  /** The answers as the results screen passes them to the calculator. */
  function Entries(answers: seq<Answer>): (r: seq<Option<Answer>>)
    ensures |r| == |answers| && forall i | 0 <= i < |r| :: r[i] == Some(answers[i])
    ensures ValidateAnswers(Some(r)) <==>
      |answers| == TotalQuestions && forall i | 0 <= i < |answers| :: ValidEntry(Some(answers[i]))
  {
    seq(|answers|, i requires 0 <= i < |answers| => Some(answers[i]))
  }

  /** Whatever happened before, a hand-off carries one answer per question in order,
      every one a pick among that question's options, and passes the validation gate
      when the list has the configured length. */
  lemma HandoffValid(qs: seq<Question>, s: State)
    requires QuizReady(qs) && Inv(qs, s) && s.handoff.Some?
    ensures var h := s.handoff.value;
      && |h.answers| == |qs| == h.totalQuestions
      && (forall j | 0 <= j < |qs| :: h.answers[j].questionId == j + 1 && Answers(qs[j], h.answers[j]))
      && !IsBlank(h.friendName)
      && (|qs| == TotalQuestions ==> ValidateAnswers(Some(Entries(h.answers))))
  {
    var h := s.handoff.value;
    forall j | 0 <= j < |qs|
      ensures ValidEntry(Entries(h.answers)[j])
    {
      var o := h.answers[j].selectedOption.value;
      var k :| 0 <= k < |qs[j].options| && qs[j].options[k] == o;
    }
  }

  /** On the app's catalogue, every run from the start that reaches the results hands
      over six valid answers, which score out of 30 with a defined percentage. */
  lemma CatalogueHandoff(events: seq<Event>)
    ensures QuizReady(Catalogue) && Inv(Catalogue, Init())
    ensures QuizReady(Catalogue) && Inv(Catalogue, Init()) &&
      var s := Run(Catalogue, Init(), events);
      s.handoff.Some? ==> HandoffScores(s.handoff.value)
    ensures QuizReady(Catalogue) && Inv(Catalogue, Init()) &&
      var s := RunAsWritten(Catalogue, Init(), events);
      s.handoff.Some? ==> HandoffScores(s.handoff.value)
  {
    CatalogueReady();
    InitInv(Catalogue);
    var s := Run(Catalogue, Init(), events);
    if s.handoff.Some? {
      HandoffValid(Catalogue, s);
    }
    var w := RunAsWritten(Catalogue, Init(), events);
    if w.handoff.Some? {
      HandoffValid(Catalogue, w);
    }
  }

  /** The hand-off passes the validation gate and scores out of the full 30. */
  predicate HandoffScores(h: Handoff) {
    && ValidateAnswers(Some(Entries(h.answers)))
    && CalculateScore(Some(Entries(h.answers))).maxPossible == Some(TotalPossiblePoints)
  }

  // ---------------------------------------------------------------------------
  // Enter on the name screen

  /** In every reachable state on the name screen, Enter as written does nothing: the
      listener was installed on mounting, with the empty name, and none of its
      dependencies changes while the name is typed. */
  lemma EnterIgnoredAsWritten(qs: seq<Question>, s: State)
    requires Inv(qs, s) && s.showNameInput
    ensures StepAsWritten(qs, s, KeyDown(Enter)) == s
  {
  }

  /** With the listener seeing the current name, Enter on a name that is not blank
      starts the quiz, as the start button does. */
  lemma EnterSubmits(qs: seq<Question>, s: State)
    requires Inv(qs, s) && s.showNameInput
    ensures Step(qs, s, KeyDown(Enter)) == Step(qs, s, StartClick)
    ensures !Step(qs, s, KeyDown(Enter)).showNameInput <==> !IsBlank(s.friendName)
  {
  }

  /** Two events in a row. */
  lemma RunTwo(qs: seq<Question>, s: State, e1: Event, e2: Event)
    requires QuizReady(qs) && Inv(qs, s)
    ensures Inv(qs, Step(qs, s, e1))
    ensures Run(qs, s, [e1, e2]) == Step(qs, Step(qs, s, e1), e2)
  {
    StepInv(qs, s, e1);
    var s1 := Step(qs, s, e1);
    StepInv(qs, s1, e2);
    assert [e1, e2][1..] == [e2] && [e2][1..] == [];
    assert Run(qs, s, [e1, e2]) == Run(qs, s1, [e2]);
    assert Run(qs, s1, [e2]) == Run(qs, Step(qs, s1, e2), []);
  }

  lemma RunTwoAsWritten(qs: seq<Question>, s: State, e1: Event, e2: Event)
    requires QuizReady(qs) && Inv(qs, s)
    ensures Inv(qs, StepAsWritten(qs, s, e1))
    ensures RunAsWritten(qs, s, [e1, e2]) == StepAsWritten(qs, StepAsWritten(qs, s, e1), e2)
  {
    StepInv(qs, s, e1);
    var s1 := StepAsWritten(qs, s, e1);
    StepInv(qs, s1, e2);
    assert [e1, e2][1..] == [e2] && [e2][1..] == [];
    assert RunAsWritten(qs, s, [e1, e2]) == RunAsWritten(qs, s1, [e2]);
    assert RunAsWritten(qs, s1, [e2]) == RunAsWritten(qs, StepAsWritten(qs, s1, e2), []);
  }

  /** Typing on the name screen changes only the name. */
  lemma TypeName(qs: seq<Question>, s: State, text: string)
    requires Inv(qs, s) && s.showNameInput
    ensures Step(qs, s, NameInput(text)) == s.(friendName := text)
    ensures StepAsWritten(qs, s, NameInput(text)) == s.(friendName := text)
  {
  }

  /** Typing a name and pressing Enter: as written the name screen stays, with the
      listener seeing the current name the quiz starts. */
  lemma EnterCounterexample(qs: seq<Question>)
    requires QuizReady(qs)
    ensures Inv(qs, Init()) && RunAsWritten(qs, Init(), [NameInput("Sam"), KeyDown(Enter)]).showNameInput
    ensures Inv(qs, Init()) && !Run(qs, Init(), [NameInput("Sam"), KeyDown(Enter)]).showNameInput
  {
    InitInv(qs);
    RunTwo(qs, Init(), NameInput("Sam"), KeyDown(Enter));
    RunTwoAsWritten(qs, Init(), NameInput("Sam"), KeyDown(Enter));
    TypeName(qs, Init(), "Sam");
    var typed := Init().(friendName := "Sam");
    assert !IsBlank("Sam") by { assert !IsWhitespace("Sam"[0]); }
    EnterIgnoredAsWritten(qs, typed);
    EnterSubmits(qs, typed);
  }
}
