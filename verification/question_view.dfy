/** The logic of the question view: the prompt with the friend's name filled in, which
    option is marked selected, and the category label. */
module QuestionView {
  import opened Wrappers
  import opened Text
  import opened Questions
  import opened ScoreCalculator
  import opened Quiz

  /** `friendName || 'Your Friend'`: the name, or the default when it is absent or
      empty. */
  function NameOrDefault(friendName: Option<string>): (n: string)
    ensures n != []
    ensures friendName.Some? && friendName.value != [] ==> n == friendName.value
    ensures friendName.None? || friendName.value == [] ==> n == "Your Friend"
  {
    if friendName.Some? && friendName.value != [] then friendName.value else "Your Friend"
  }

  /** The displayed prompt as written: `String.prototype.replace` with the name as
      replacement, so `$` patterns in the name are expanded. */
  function DisplayQuestionAsWritten(q: Question, friendName: Option<string>): (r: string)
    ensures !Contains(q.prompt, Placeholder) ==> r == q.prompt
    ensures Contains(q.prompt, Placeholder) ==>
      exists i :: FirstMatch(q.prompt, Placeholder, i) && r == q.prompt[..i]
        + Substitution(NameOrDefault(friendName), Placeholder, q.prompt[..i], q.prompt[i + |Placeholder|..])
        + q.prompt[i + |Placeholder|..]
    ensures NameOrDefault(friendName) == "$&" ==> r == q.prompt
  {
    ReplaceFirst(q.prompt, Placeholder, NameOrDefault(friendName))
  }

  /** The displayed prompt: the first placeholder replaced by the name taken literally. */
  function DisplayQuestion(q: Question, friendName: Option<string>): (r: string)
    ensures !Contains(q.prompt, Placeholder) ==> r == q.prompt
    ensures Contains(q.prompt, Placeholder) ==>
      exists i :: FirstMatch(q.prompt, Placeholder, i) && r == q.prompt[..i] + NameOrDefault(friendName) + q.prompt[i + |Placeholder|..]
  {
    ReplaceFirstLiteral(q.prompt, Placeholder, NameOrDefault(friendName))
  }

  /** For a name without `$` the two agree. */
  lemma DisplayAgreesWithoutDollar(q: Question, friendName: Option<string>)
    requires '$' !in NameOrDefault(friendName)
    ensures DisplayQuestionAsWritten(q, friendName) == DisplayQuestion(q, friendName)
  {
    ReplaceFirstWithoutDollar(q.prompt, Placeholder, NameOrDefault(friendName));
  }

  /** A template with one slot shows its text around the name, and shows no
      placeholder unless the name holds one. */
  lemma FillTemplate(s: Slotted, name: string)
    requires s.BraceFree()
    ensures ReplaceFirstLiteral(s.Text(), Placeholder, name) == s.before + name + s.after
    ensures !Contains(name, Placeholder) ==> !Contains(s.before + name + s.after, Placeholder)
  {
    FillSlot(s.before, Placeholder, s.after, name);
    if !Contains(name, Placeholder) {
      NoOccurrenceAfterFill(s.before, name, s.after, Placeholder);
    }
  }

  /** Every catalogue prompt is displayed as its text around the name, with no
      placeholder left when the name holds none. */
  lemma DisplayCatalogueQuestion(i: nat, friendName: Option<string>)
    requires i < |Catalogue|
    ensures var n := NameOrDefault(friendName);
      && DisplayQuestion(Catalogue[i], friendName) == PromptSlots[i].before + n + PromptSlots[i].after
      && (!Contains(n, Placeholder) ==> !Contains(DisplayQuestion(Catalogue[i], friendName), Placeholder))
  {
    CatalogueWellFormed();
    PromptSlotsBraceFree();
    FillTemplate(PromptSlots[i], NameOrDefault(friendName));
  }

  /** The name `$&` makes the replacement as written put the placeholder back: the
      prompt is shown with `{friendName}` in it. */
  lemma DollarNameKeepsPlaceholder(i: nat)
    requires i < |Catalogue|
    ensures DisplayQuestionAsWritten(Catalogue[i], Some("$&")) == Catalogue[i].prompt
    ensures Contains(DisplayQuestionAsWritten(Catalogue[i], Some("$&")), Placeholder)
  {
    CatalogueWellFormed();
    PromptSlotsBraceFree();
    var s := PromptSlots[i];
    DollarAmpersandKeepsPattern(s.before, Placeholder, s.after);
    assert MatchAt(s.Text(), Placeholder, |s.before|);
  }

  /** `selectedAnswer?.selectedOption?.text === option.text`. */
  function IsSelected(selected: Option<Answer>, option: Choice): (b: bool)
    ensures b ==> selected.Some? && selected.value.selectedOption.Some?
    ensures selected.Some? && selected.value.selectedOption == Some(option) ==> b
    ensures b ==> selected.value.selectedOption.value.text == option.text
  {
    selected.Some? && selected.value.selectedOption.Some? && selected.value.selectedOption.value.text == option.text
  }

  /** After a click on option `j` the view marks exactly the options that carry the
      clicked option's text; before any answer to the question nothing is marked. */
  lemma ClickMarksOption(qs: seq<Question>, s: State, j: nat)
    requires QuizReady(qs) && Inv(qs, s) && !s.showNameInput && !s.IsAnimating() && s.handoff.None?
    requires j < |qs[s.index].options|
    ensures var t := Step(qs, s, OptionClick(j));
      var options := qs[s.index].options;
      && t.index == s.index
      && forall k | 0 <= k < |options| ::
           IsSelected(CurrentSelectedAnswer(qs, t), options[k]) <==> options[k].text == options[j].text
  {
    var t := Step(qs, s, OptionClick(j));
    SelectRecordsAnswer(qs, s, j);
    StepInv(qs, s, OptionClick(j));
    assert t.index == s.index;
    var q := qs[s.index];
    assert s.index in PositionsOf(t.answers, q.id);
    var r := CurrentSelectedAnswer(qs, t);
    assert r.Some?;
    assert r.value.questionId == q.id;
    var k := FindIndex(t.answers, q.id).value;
    assert k in PositionsOf(t.answers, q.id);
    assert r.value == t.answers[s.index];
  }

  /** With no answer to the current question, no option is marked. */
  lemma UnansweredMarksNothing(qs: seq<Question>, s: State)
    requires 0 <= s.index < |qs|
    requires forall j | 0 <= j < |s.answers| :: s.answers[j].questionId != qs[s.index].id
    ensures forall k | 0 <= k < |qs[s.index].options| :: !IsSelected(CurrentSelectedAnswer(qs, s), qs[s.index].options[k])
  {
  }

  /** `category?.replace(/_/g, ' ').toUpperCase() || 'FRIENDSHIP'`, a missing category
      being the empty one. */
  function CategoryLabel(category: string): (l: string)
    ensures category == [] ==> l == "FRIENDSHIP"
    ensures category != [] ==> |l| == |category|
    ensures category != [] ==> forall i | 0 <= i < |l| :: l[i] != '_' && !IsLowerAscii(l[i])
    ensures category != [] ==> forall i | 0 <= i < |category| ::
      (category[i] == '_' ==> l[i] == ' ')
      && (category[i] != '_' && !IsLowerAscii(category[i]) ==> l[i] == category[i])
      && (IsLowerAscii(category[i]) ==> l[i] as int == category[i] as int - 32)
  {
    var shown := UpperAscii(ReplaceEvery(category, '_', ' '));
    if shown == [] then "FRIENDSHIP" else shown
  }

  /** The label of a category that is already upper case without underscores is the
      category itself. */
  lemma CategoryLabelOfShown(category: string)
    requires category != []
    requires forall i | 0 <= i < |category| :: category[i] != '_' && !IsLowerAscii(category[i])
    ensures CategoryLabel(category) == category
  {
    var l := CategoryLabel(category);
    assert forall i | 0 <= i < |l| :: l[i] == category[i];
  }

  /** Labels are stable: the label of a label is itself. */
  lemma CategoryLabelIdempotent(category: string)
    ensures CategoryLabel(CategoryLabel(category)) == CategoryLabel(category)
  {
    var l := CategoryLabel(category);
    if category == [] {
      assert forall i | 0 <= i < |l| :: l[i] != '_' && !IsLowerAscii(l[i]);
    }
    CategoryLabelOfShown(l);
  }
}
