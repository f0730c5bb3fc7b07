/** The quiz's fixed configuration: the question catalogue, the scoring constants and
    the per-flag message pools, together with the consistency facts they satisfy.

    Texts on which a character-level fact is proved are written as concatenations of
    shorter literals; the concatenation is the same string as the literal in `questions.js`. */
module Questions {
  import opened Wrappers
  import opened Text

  /** The three classifications of a friend. */
  datatype Flag = GreenFlag | YellowFlag | RedFlag

  /** The key under which `scoreCalculator.js` stores and compares a flag. */
  function FlagKey(f: Flag): string {
    match f
    case GreenFlag => "greenFlag"
    case YellowFlag => "yellowFlag"
    case RedFlag => "redFlag"
  }

  /** Reads a flag key as the object lookups of `scoreCalculator.js` and
      `colorSpectrum.js` do: any other string is unknown. */
  function ParseFlag(s: string): (r: Option<Flag>)
    ensures r.Some? ==> FlagKey(r.value) == s
    ensures r.None? ==> forall f: Flag :: FlagKey(f) != s
  {
    if s == "greenFlag" then Some(GreenFlag)
    else if s == "yellowFlag" then Some(YellowFlag)
    else if s == "redFlag" then Some(RedFlag)
    else None
  }

  lemma ParseFlagKey(f: Flag)
    ensures ParseFlag(FlagKey(f)) == Some(f)
  {
  }

  /** How good a flag is: red below yellow below green. */
  function Rank(f: Flag): nat {
    match f
    case RedFlag => 0
    case YellowFlag => 1
    case GreenFlag => 2
  }

  // ---------------------------------------------------------------------------
  // Scoring configuration

  const TotalQuestions: int := 6
  const MaxPointsPerQuestion: int := 5
  const TotalPossiblePoints: int := 30
  const GreenThreshold: int := 21
  const YellowThreshold: int := 13
  /** Declared alongside the other thresholds; the calculator never reads it. */
  const RedThreshold: int := 12

  lemma ThresholdsOrdered()
    ensures 0 < YellowThreshold < GreenThreshold <= TotalPossiblePoints
    ensures RedThreshold == YellowThreshold - 1
    ensures TotalPossiblePoints == TotalQuestions * MaxPointsPerQuestion
  {
  }

  // ---------------------------------------------------------------------------
  // Templates

  /** The token the views replace with the friend's name. */
  const Placeholder: string := "{friendName}"

  /** A text with one placeholder: what comes before it and what comes after. */
  datatype Slotted = Slotted(before: string, after: string) {
    function Text(): (r: string)
      ensures |r| == |before| + |Placeholder| + |after|
      ensures MatchAt(r, Placeholder, |before|)
    {
      before + Placeholder + after
    }

    /** Neither part holds an opening brace of its own, and no closing brace follows
        the placeholder. */
    predicate BraceFree() {
      '{' !in before && '{' !in after && '}' !in after
    }
  }

  // ---------------------------------------------------------------------------
  // Question catalogue

  datatype Choice = Choice(text: string, points: int)

  datatype Question = Question(id: int, prompt: string, options: seq<Choice>, category: string)

  /** The six prompts, split around their placeholder. */
  const After1: string := " texts you at 3 " + "AM with " + "'EMERGENCY!' " + "and it's " + "about..."
  const Prompt1: Slotted := Slotted("", After1)
  const After2: string := " posts a " + "questionable " + "outfit on " + "Instagram, they " + "usually..."
  const Prompt2: Slotted := Slotted("When ", After2)
  const After3: string := " to help you " + "move this " + "weekend, they..."
  const Prompt3: Slotted := Slotted("When you ask ", After3)
  const After4: string := "'s DMs, they " + "would..."
  const Prompt4: Slotted := Slotted("If your ex slid into ", After4)
  const After5: string := " usually..."
  const Prompt5: Slotted := Slotted("At parties, ", After5)
  const After6: string := " asks for your " + "honest opinion " + "about their " + "terrible " + "haircut..."
  const Prompt6: Slotted := Slotted("When ", After6)
  const PromptSlots: seq<Slotted> := [Prompt1, Prompt2, Prompt3, Prompt4, Prompt5, Prompt6]

  const Q1: Question := Question(1, Prompt1.Text(), [
    Choice("A genuine crisis that needs immediate help", 5),
    Choice("Drama about their crush not texting back", 2),
    Choice("They're drunk and want to order pizza together", 4),
    Choice("They found a spider and need emotional support", 3)
  ], "crisis_response")

  const Q2: Question := Question(2, Prompt2.Text(), [
    Choice("Own it confidently and respond to comments with humor", 5),
    Choice("Get defensive and start drama in the comments", 2),
    Choice("Delete it after a few hours when they realize", 3),
    Choice("Leave it up but clearly feel embarrassed", 4)
  ], "social_media")

  const Q3: Question := Question(3, Prompt3.Text(), [
    Choice("Show up early with coffee, snacks, and their best attitude", 5),
    Choice("Agree but complain the entire time about their back", 2),
    Choice("Suddenly remember they have other plans", 1),
    Choice("Offer to pay for pizza and movers instead", 3)
  ], "support")

  const Q4: Question := Question(4, Prompt4.Text(), [
    Choice("Screenshot immediately and send it to you", 5),
    Choice("Ignore it and never speak of it", 4),
    Choice("Tell you about it but admit they responded 'for research'", 2),
    Choice("Actually consider it because your ex is kind of cute", 1)
  ], "loyalty")

  const Q5: Question := Question(5, Prompt5.Text(), [
    Choice("Makes sure everyone feels included and has a good time", 5),
    Choice("Tells the same embarrassing stories about you every time", 2),
    Choice("Is the life of the party but sometimes goes too far", 3),
    Choice("Starts drama or gets into arguments with people", 1)
  ], "social_behavior")

  const Q6: Question := Question(6, Prompt6.Text(), [
    Choice("They genuinely want the truth and can handle it maturely", 5),
    Choice("They want honesty but will sulk if you're not positive", 3),
    Choice("They're clearly fishing for compliments and want you to lie", 2),
    Choice("They ask but then get angry when you're honest", 1)
  ], "honesty")

  /** The questions in the order the quiz asks them. */
  const Catalogue: seq<Question> := [Q1, Q2, Q3, Q4, Q5, Q6]

  /** A question as the quiz expects it: four options, each worth between 1 and the
      per-question maximum, the first of them worth the maximum. */
  predicate WellFormedQuestion(q: Question) {
    && |q.options| == 4
    && q.options[0].points == MaxPointsPerQuestion
    && forall j | 0 <= j < |q.options| :: 1 <= q.options[j].points <= MaxPointsPerQuestion
  }

  lemma Q1WellFormed() ensures Q1.id == 1 && WellFormedQuestion(Q1) {}
  lemma Q2WellFormed() ensures Q2.id == 2 && WellFormedQuestion(Q2) {}
  lemma Q3WellFormed() ensures Q3.id == 3 && WellFormedQuestion(Q3) {}
  lemma Q4WellFormed() ensures Q4.id == 4 && WellFormedQuestion(Q4) {}
  lemma Q5WellFormed() ensures Q5.id == 5 && WellFormedQuestion(Q5) {}
  lemma Q6WellFormed() ensures Q6.id == 6 && WellFormedQuestion(Q6) {}

  /** The catalogue has the configured number of questions, numbered 1 to 6 in order,
      each well formed and asking its slot's prompt. */
  lemma CatalogueWellFormed()
    ensures |Catalogue| == TotalQuestions == |PromptSlots|
    ensures forall i | 0 <= i < |Catalogue| :: Catalogue[i].id == i + 1
    ensures forall i | 0 <= i < |Catalogue| :: WellFormedQuestion(Catalogue[i])
    ensures forall i | 0 <= i < |Catalogue| :: Catalogue[i].prompt == PromptSlots[i].Text()
  {
    Q1WellFormed(); Q2WellFormed(); Q3WellFormed();
    Q4WellFormed(); Q5WellFormed(); Q6WellFormed();
  }

  /** The most points one question can give. */
  function BestPoints(options: seq<Choice>): (m: int)
    requires |options| > 0
    ensures forall j | 0 <= j < |options| :: options[j].points <= m
    ensures exists j | 0 <= j < |options| :: options[j].points == m
  {
    if |options| == 1 then options[0].points
    else
      var rest := BestPoints(options[1..]);
      assert forall j | 1 <= j < |options| :: options[j] == options[1..][j - 1];
      if options[0].points > rest then options[0].points else rest
  }

  predicate HasOptions(qs: seq<Question>) {
    forall i | 0 <= i < |qs| :: |qs[i].options| > 0
  }

  /** The best total a sequence of questions allows. */
  function MaxAttainable(qs: seq<Question>): int
    requires HasOptions(qs)
  {
    if qs == [] then 0 else BestPoints(qs[0].options) + MaxAttainable(qs[1..])
  }

  /** A choice of one option index per question. */
  predicate ValidPicks(qs: seq<Question>, picks: seq<nat>) {
    |picks| == |qs| && forall i | 0 <= i < |qs| :: picks[i] < |qs[i].options|
  }

  /** The total of the picked options. */
  function PickedTotal(qs: seq<Question>, picks: seq<nat>): int
    requires ValidPicks(qs, picks)
  {
    if qs == [] then 0 else qs[0].options[picks[0]].points + PickedTotal(qs[1..], picks[1..])
  }

  /** No way of answering beats `MaxAttainable`. */
  lemma {:induction false} PickedTotalBounded(qs: seq<Question>, picks: seq<nat>)
    requires HasOptions(qs) && ValidPicks(qs, picks)
    ensures PickedTotal(qs, picks) <= MaxAttainable(qs)
  {
    if qs != [] {
      assert ValidPicks(qs[1..], picks[1..]) by {
        forall i | 0 <= i < |qs| - 1 ensures picks[1..][i] < |qs[1..][i].options| {
          assert picks[1..][i] == picks[i + 1];
        }
      }
      PickedTotalBounded(qs[1..], picks[1..]);
    }
  }

  /** When every question's first option is worth the most, always answering the first
      option reaches the best total, which is that maximum once per question. */
  lemma {:induction false} FirstPicksAttainMax(qs: seq<Question>, m: int)
    requires forall i | 0 <= i < |qs| :: |qs[i].options| > 0 && qs[i].options[0].points == m
    requires forall i, j | 0 <= i < |qs| && 0 <= j < |qs[i].options| :: qs[i].options[j].points <= m
    ensures HasOptions(qs) && ValidPicks(qs, seq(|qs|, _ => 0))
    ensures MaxAttainable(qs) == PickedTotal(qs, seq(|qs|, _ => 0)) == m * |qs|
  {
    if qs != [] {
      assert BestPoints(qs[0].options) == m;
      FirstPicksAttainMax(qs[1..], m);
      assert seq(|qs|, _ => 0)[1..] == seq(|qs| - 1, _ => 0);
    }
  }

  /** The best total of the catalogue is the configured total, and answering the first
      option of every question reaches it. */
  lemma MaxAttainableIsTotalPossible()
    ensures HasOptions(Catalogue) && MaxAttainable(Catalogue) == TotalPossiblePoints
    ensures ValidPicks(Catalogue, seq(TotalQuestions, _ => 0))
    ensures PickedTotal(Catalogue, seq(TotalQuestions, _ => 0)) == TotalPossiblePoints
  {
    CatalogueWellFormed();
    FirstPicksAttainMax(Catalogue, MaxPointsPerQuestion);
  }

  lemma After1BraceFree() ensures '{' !in After1 && '}' !in After1 {}
  lemma After2BraceFree() ensures '{' !in After2 && '}' !in After2 {}
  lemma After3BraceFree() ensures '{' !in After3 && '}' !in After3 {}
  lemma After4BraceFree() ensures '{' !in After4 && '}' !in After4 {}
  lemma After5BraceFree() ensures '{' !in After5 && '}' !in After5 {}
  lemma After6BraceFree() ensures '{' !in After6 && '}' !in After6 {}

  /** A slot whose parts hold no opening brace holds the placeholder exactly once. */
  lemma SlottedOnce(s: Slotted)
    requires s.BraceFree()
    ensures Occurrences(s.Text(), Placeholder) == {|s.before|}
  {
    assert '{' !in Placeholder[1..];
    SingleOccurrence(s.before, Placeholder, s.after);
  }

  lemma PromptSlotsBraceFree()
    ensures forall i | 0 <= i < |PromptSlots| :: PromptSlots[i].BraceFree()
  {
    After1BraceFree(); After2BraceFree(); After3BraceFree();
    After4BraceFree(); After5BraceFree(); After6BraceFree();
  }

  /** Every prompt holds the placeholder exactly once. */
  lemma PromptsHaveOnePlaceholder()
    ensures forall i | 0 <= i < |Catalogue| :: Occurrences(Catalogue[i].prompt, Placeholder) == {|PromptSlots[i].before|}
  {
    CatalogueWellFormed();
    PromptSlotsBraceFree();
    forall i | 0 <= i < |Catalogue|
      ensures Occurrences(Catalogue[i].prompt, Placeholder) == {|PromptSlots[i].before|}
    {
      SlottedOnce(PromptSlots[i]);
    }
  }

  // ---------------------------------------------------------------------------
  // Result messages

  /** The titles and descriptions one flag's result is drawn from, each a template. */
  datatype MessagePool = MessagePool(titles: seq<Slotted>, descriptions: seq<Slotted>)

  const GreenMessages: MessagePool := MessagePool(
    [
      Slotted("", " is a Green Flag Legend! 🌟"),
      Slotted("", " - Ultimate Friend Goals! 💚"),
      Slotted("", " is the Friend Everyone Deserves! ✨")
    ],
    [
      Slotted("", " is the friend who brings snacks to a crisis, handles drama maturely, and would help you move without complaining. They're a keeper!"),
      Slotted("", " has mastered the art of being supportive, loyal, and just the right amount of fun. You're lucky to have them!"),
      Slotted("", " is like the golden retriever of friendship - loyal, supportive, and always ready for an adventure. Treasure this friendship!")
    ])

  const YellowMessages: MessagePool := MessagePool(
    [
      Slotted("", " is a Yellow Flag - Proceed with Caution! 💛"),
      Slotted("", " Gives Mixed Signals! 🤔"),
      Slotted("", " is a Loveable Mess! 😅")
    ],
    [
      Slotted("", " means well but sometimes misses the mark. They'd help you move but complain about their back for weeks. Still loveable though!"),
      Slotted("", " is great in small doses. They care about you, but sometimes their approach is... unique. They're working on it!"),
      Slotted("", " isn't quite red flag territory, but they've got some questionable friendship habits. Maybe gently guide them toward better choices!")
    ])

  const RedMessages: MessagePool := MessagePool(
    [
      Slotted("Yikes... ", " is a Red Flag! 🚩"),
      Slotted("Houston, " + "We Have a " + "Problem with ", "! 🚨"),
      Slotted("", " is the Chaotic Friend! 💥")
    ],
    [
      Slotted("", " is the friend who would steal your fries and then ask why you're being dramatic. You might need to have a serious conversation!"),
      Slotted("", " gives main character energy in everyone else's story. Maybe it's time they learn what 'supporting role' means?"),
      Slotted("", " is the friend people complain about in group chats. They're memorable, but not always for the right reasons!")
    ])

  function Messages(f: Flag): MessagePool {
    match f
    case GreenFlag => GreenMessages
    case YellowFlag => YellowMessages
    case RedFlag => RedMessages
  }

  /** Every flag has three titles and three descriptions, each a non-empty text that
      carries the placeholder. */
  lemma MessagePoolsWellFormed(f: Flag)
    ensures |Messages(f).titles| == 3 && |Messages(f).descriptions| == 3
    ensures forall i | 0 <= i < 3 :: Contains(Messages(f).titles[i].Text(), Placeholder)
    ensures forall i | 0 <= i < 3 :: Contains(Messages(f).descriptions[i].Text(), Placeholder)
  {
    var m := Messages(f);
    forall s: Slotted ensures Contains(s.Text(), Placeholder) {
      assert MatchAt(s.Text(), Placeholder, |s.before|);
    }
  }

  lemma GreenTitlesOpen()
    ensures forall i | 0 <= i < |GreenMessages.titles| :: '{' !in GreenMessages.titles[i].before
  {
  }

  lemma YellowTitlesOpen()
    ensures forall i | 0 <= i < |YellowMessages.titles| :: '{' !in YellowMessages.titles[i].before
  {
  }

  lemma RedTitlesOpen()
    ensures forall i | 0 <= i < |RedMessages.titles| :: '{' !in RedMessages.titles[i].before
  {
  }

  lemma DescriptionsOpen(m: MessagePool)
    requires m == GreenMessages || m == YellowMessages || m == RedMessages
    ensures forall i | 0 <= i < |m.descriptions| :: '{' !in m.descriptions[i].before
  {
  }

  /** No message template has an opening brace before its placeholder. */
  lemma MessageBeforesOpen(f: Flag)
    ensures forall i | 0 <= i < |Messages(f).titles| :: '{' !in Messages(f).titles[i].before
    ensures forall i | 0 <= i < |Messages(f).descriptions| :: '{' !in Messages(f).descriptions[i].before
  {
    GreenTitlesOpen();
    YellowTitlesOpen();
    RedTitlesOpen();
    DescriptionsOpen(Messages(f));
  }
}
