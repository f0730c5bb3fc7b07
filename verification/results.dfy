/** The logic of the results screen: the redirect guard, the score and its colours,
    the personalised message, the emoji and gradient of a flag, the share text as
    posted and the name of the downloaded picture. */
module Results {
  import opened Wrappers
  import opened Text
  import opened Questions
  import opened ScoreCalculator
  import opened ColorSpectrum
  import opened QuestionView
  import opened Quiz

  /** What the screen shows: nothing but a redirect home, or the full result. */
  datatype View =
    | Redirect
    | Shown(
        result: ScoreResult,
        message: ResultMessage,
        shareText: string,
        spectrumColor: string,
        flagColors: FlagColors,
        emoji: string,
        gradient: string)

  /** The emoji of a flag key, `❓` for an unknown key. */
  function FlagEmojiFor(flagType: string): (e: string)
    ensures ParseFlag(flagType).Some? ==> e == FlagEmoji(ParseFlag(flagType).value)
    ensures e == "❓" <==> ParseFlag(flagType).None?
  {
    match ParseFlag(flagType)
    case Some(f) => FlagEmoji(f)
    case None => "❓"
  }

  /** The background gradient of a flag. */
  function Gradient(f: Flag): string {
    match f
    case GreenFlag => "from-green-400 to-emerald-500"
    case YellowFlag => "from-yellow-400 to-orange-500"
    case RedFlag => "from-red-400 to-pink-500"
  }

  /** The gradient of a flag key; an unknown key gets the red one. */
  function GradientFor(flagType: string): (g: string)
    ensures ParseFlag(flagType).Some? ==> g == Gradient(ParseFlag(flagType).value)
    ensures ParseFlag(flagType).None? ==> g == Gradient(RedFlag)
  {
    match ParseFlag(flagType)
    case Some(f) => Gradient(f)
    case None => Gradient(RedFlag)
  }

  /** Distinct flags have distinct gradients and emojis, so each identifies its flag. */
  lemma FlagLooksDistinct(f: Flag, g: Flag)
    requires f != g
    ensures Gradient(f) != Gradient(g) && FlagEmoji(f) != FlagEmoji(g)
  {
  }

  /** Both keys' pictures stay consistent: a known key's gradient and emoji are those of
      its flag, and an unknown key looks red without being shown as red. */
  lemma KeyLooks(f: Flag, unknown: string)
    requires ParseFlag(unknown).None?
    ensures GradientFor(FlagKey(f)) == Gradient(f) && FlagEmojiFor(FlagKey(f)) == FlagEmoji(f)
    ensures GradientFor(unknown) == Gradient(RedFlag) && FlagEmojiFor(unknown) != FlagEmoji(RedFlag)
  {
    ParseFlagKey(f);
  }

  /** The message with its first placeholders replaced by the name taken literally. */
  function Personalise(m: ResultMessage, friendName: Option<string>): (p: ResultMessage)
    ensures var n := NameOrDefault(friendName);
      && (!Contains(m.title, Placeholder) ==> p.title == m.title)
      && (Contains(m.title, Placeholder) ==> exists i :: FirstMatch(m.title, Placeholder, i) && p.title == m.title[..i] + n + m.title[i + |Placeholder|..])
      && (!Contains(m.description, Placeholder) ==> p.description == m.description)
      && (Contains(m.description, Placeholder) ==> exists i :: FirstMatch(m.description, Placeholder, i) && p.description == m.description[..i] + n + m.description[i + |Placeholder|..])
  {
    var n := NameOrDefault(friendName);
    ResultMessage(ReplaceFirstLiteral(m.title, Placeholder, n), ReplaceFirstLiteral(m.description, Placeholder, n))
  }

  /** The message as written: `String.prototype.replace`, expanding `$` patterns in the
      name. */
  function PersonaliseAsWritten(m: ResultMessage, friendName: Option<string>): (p: ResultMessage)
    ensures var n := NameOrDefault(friendName);
      && (!Contains(m.title, Placeholder) ==> p.title == m.title)
      && (Contains(m.title, Placeholder) ==> exists i :: FirstMatch(m.title, Placeholder, i) && p.title == m.title[..i] + Substitution(n, Placeholder, m.title[..i], m.title[i + |Placeholder|..]) + m.title[i + |Placeholder|..])
      && (!Contains(m.description, Placeholder) ==> p.description == m.description)
      && (Contains(m.description, Placeholder) ==> exists i :: FirstMatch(m.description, Placeholder, i) && p.description == m.description[..i] + Substitution(n, Placeholder, m.description[..i], m.description[i + |Placeholder|..]) + m.description[i + |Placeholder|..])
      && (n == "$&" ==> p == m)
  {
    var n := NameOrDefault(friendName);
    ResultMessage(ReplaceFirst(m.title, Placeholder, n), ReplaceFirst(m.description, Placeholder, n))
  }

  /** For a name without `$` the two agree. */
  lemma PersonaliseAgreesWithoutDollar(m: ResultMessage, friendName: Option<string>)
    requires '$' !in NameOrDefault(friendName)
    ensures PersonaliseAsWritten(m, friendName) == Personalise(m, friendName)
  {
    var n := NameOrDefault(friendName);
    ReplaceFirstWithoutDollar(m.title, Placeholder, n);
    ReplaceFirstWithoutDollar(m.description, Placeholder, n);
  }

  /** The name `$&` leaves every message of every flag untouched as written, so the
      placeholder itself is shown. */
  lemma DollarNameKeepsMessagePlaceholder(f: Flag, i: nat, j: nat)
    requires i < |Messages(f).titles| && j < |Messages(f).descriptions|
    ensures var m := ResultMessage(Messages(f).titles[i].Text(), Messages(f).descriptions[j].Text());
      && PersonaliseAsWritten(m, Some("$&")) == m
      && Contains(PersonaliseAsWritten(m, Some("$&")).title, Placeholder)
  {
    MessagePoolsWellFormed(f);
    MessageBeforesOpen(f);
    var t, d := Messages(f).titles[i], Messages(f).descriptions[j];
    DollarAmpersandKeepsPattern(t.before, Placeholder, t.after);
    DollarAmpersandKeepsPattern(d.before, Placeholder, d.after);
  }

  /** A text drawn from a pool of templates whose parts before the slot hold no opening
      brace shows, once filled, one of the templates with the name in its slot. */
  lemma FillDrawn(slots: seq<Slotted>, t: string, n: string)
    requires t in Texts(slots)
    requires forall i | 0 <= i < |slots| :: '{' !in slots[i].before
    ensures exists i | 0 <= i < |slots| :: ReplaceFirstLiteral(t, Placeholder, n) == slots[i].before + n + slots[i].after
  {
    var i :| 0 <= i < |slots| && Texts(slots)[i] == t;
    FillSlot(slots[i].before, Placeholder, slots[i].after, n);
  }

  /** A drawn message of a flag, personalised, is a title template and a description
      template of that flag with the name in their slots. */
  lemma PersonaliseDrawn(f: Flag, u1: real, u2: real, friendName: Option<string>)
    requires 0.0 <= u1 < 1.0 && 0.0 <= u2 < 1.0
    ensures var p := Personalise(GetResultMessage(FlagKey(f), u1, u2), friendName);
      var n := NameOrDefault(friendName);
      && (exists i | 0 <= i < |Messages(f).titles| ::
            p.title == Messages(f).titles[i].before + n + Messages(f).titles[i].after)
      && (exists j | 0 <= j < |Messages(f).descriptions| ::
            p.description == Messages(f).descriptions[j].before + n + Messages(f).descriptions[j].after)
  {
    ParseFlagKey(f);
    MessageBeforesOpen(f);
    var m := GetResultMessage(FlagKey(f), u1, u2);
    var n := NameOrDefault(friendName);
    FillDrawn(Messages(f).titles, m.title, n);
    FillDrawn(Messages(f).descriptions, m.description, n);
  }

  /** `shareText.replace(/\n/g, ' ')`: the text posted to a platform. */
  function ShareTextForPlatform(shareText: string): (r: string)
    ensures |r| == |shareText| && '\n' !in r
    ensures forall i | 0 <= i < |shareText| && shareText[i] != '\n' :: r[i] == shareText[i]
    ensures forall i | 0 <= i < |shareText| && shareText[i] == '\n' :: r[i] == ' '
  {
    ReplaceEvery(shareText, '\n', ' ')
  }

  /** A piece without line breaks is found at the same place after flattening. */
  lemma FlattenKeepsMatch(s: string, p: string, i: nat)
    requires MatchAt(s, p, i) && '\n' !in p
    ensures MatchAt(ShareTextForPlatform(s), p, i)
  {
    var r := ShareTextForPlatform(s);
    assert forall k | 0 <= k < |p| :: s[i + k] == p[k];
    assert r[i..i + |p|] == p;
  }

  /** Flattening keeps a lead and a name without line breaks where they were. */
  lemma FlattenKeepsLead(s: string, name: string)
    requires MatchAt(s, ShareLead, 0) && MatchAt(s, name, |ShareLead|) && '\n' !in name
    ensures MatchAt(ShareTextForPlatform(s), ShareLead, 0) && MatchAt(ShareTextForPlatform(s), name, |ShareLead|)
  {
    FlattenKeepsMatch(s, ShareLead, 0);
    FlattenKeepsMatch(s, name, |ShareLead|);
  }

  /** The posted text still opens with the lead and the name when the name holds no
      line break. */
  lemma PostedShareText(result: ScoreResult, friendName: Option<string>)
    requires '\n' !in friendName.GetOr("My Friend")
    ensures var r := ShareTextForPlatform(GenerateShareText(result, friendName));
      && '\n' !in r
      && MatchAt(r, ShareLead, 0)
      && MatchAt(r, friendName.GetOr("My Friend"), |ShareLead|)
  {
    FlattenKeepsLead(GenerateShareText(result, friendName), friendName.GetOr("My Friend"));
  }

  const PictureSuffix: string := "-quiz-results.png"

  /** `${friendName.replace(/\s+/g, '-')}-quiz-results.png`. */
  function DownloadFileName(friendName: string): (r: string)
    ensures HasNoWhitespace(r)
    ensures |r| >= |PictureSuffix| && r[|r| - |PictureSuffix|..] == PictureSuffix
    ensures r[..|r| - |PictureSuffix|] == ReplaceWhitespaceRuns(friendName, '-')
  {
    var stem := ReplaceWhitespaceRuns(friendName, '-');
    assert HasNoWhitespace(PictureSuffix);
    stem + PictureSuffix
  }

  /** A name without whitespace is used as it is. */
  lemma DownloadFileNameOfWord(friendName: string)
    requires HasNoWhitespace(friendName)
    ensures DownloadFileName(friendName) == friendName + PictureSuffix
  {
    ReplaceWhitespaceRunsIdentity(friendName, '-');
  }

  /** A run of whitespace between two words becomes one dash. */
  lemma DownloadFileNameJoins(x: string, w: string, y: string)
    requires HasNoWhitespace(x) && HasNoWhitespace(y)
    requires w != [] && IsBlank(w)
    ensures DownloadFileName(x + w + y) == x + "-" + y + PictureSuffix
  {
    ReplaceWhitespaceRunsJoin(x, w, y, '-');
    ReplaceWhitespaceRunsIdentity(x, '-');
    ReplaceWhitespaceRunsIdentity(y, '-');
  }

  /** What a shown screen displays for its score: the spectrum colour of the score out
      of the maximum, the palette of the flag, its emoji and gradient, and the share text
      of the result and the name, which opens with the lead and the name. */
  predicate ShowsScore(v: View, friendName: Option<string>)
    requires v.Shown?
  {
    && v.result.maxPossible == Some(TotalPossiblePoints)
    && v.spectrumColor == GetColorForScore(v.result.totalScore as real, v.result.maxPossible.value as real)
    && v.flagColors == GetFlagColors(FlagKey(v.result.flag))
    && v.flagColors.primary == BaseColor(v.result.flag)
    && v.emoji == FlagEmoji(v.result.flag)
    && v.gradient == Gradient(v.result.flag)
    && v.shareText == GenerateShareText(v.result, friendName)
    && MatchAt(v.shareText, ShareLead, 0)
    && MatchAt(v.shareText, friendName.GetOr("My Friend"), |ShareLead|)
  }

  /** Everything the screen shows for a score, its message already personalised. */
  function Show(result: ScoreResult, message: ResultMessage, friendName: Option<string>): (v: View)
    requires result.maxPossible == Some(TotalPossiblePoints)
    ensures v.Shown? && v.result == result && v.message == message
    ensures ShowsScore(v, friendName)
  {
    var key := FlagKey(result.flag);
    ParseFlagKey(result.flag);
    Shown(
      result,
      message,
      GenerateShareText(result, friendName),
      GetColorForScore(result.totalScore as real, result.maxPossible.value as real),
      GetFlagColors(key),
      FlagEmojiFor(key),
      GradientFor(key))
  }

  /** The screen for the navigation state it is given, with the two draws of
      `Math.random()` passed in: a redirect exactly when there are no answers, and
      otherwise the score of the answers with a drawn message of its flag. */
  function Render(answers: Option<seq<Option<Answer>>>, friendName: Option<string>, u1: real, u2: real): (v: View)
    requires 0.0 <= u1 < 1.0 && 0.0 <= u2 < 1.0
    ensures v.Redirect? <==> NoAnswers(answers)
    ensures v.Shown? ==> v.result == CalculateScore(answers) && ShowsScore(v, friendName)
    ensures v.Shown? ==> v.message == Personalise(GetResultMessage(FlagKey(v.result.flag), u1, u2), friendName)
  {
    if NoAnswers(answers) then Redirect
    else
      var result := CalculateScore(answers);
      Show(result, Personalise(GetResultMessage(FlagKey(result.flag), u1, u2), friendName), friendName)
  }

  /** The screen as written, substituting the name with `String.prototype.replace`. */
  function RenderAsWritten(answers: Option<seq<Option<Answer>>>, friendName: Option<string>, u1: real, u2: real): (v: View)
    requires 0.0 <= u1 < 1.0 && 0.0 <= u2 < 1.0
    ensures v.Redirect? <==> NoAnswers(answers)
    ensures v.Shown? ==> v.result == CalculateScore(answers) && ShowsScore(v, friendName)
    ensures v.Shown? ==> v.message == PersonaliseAsWritten(GetResultMessage(FlagKey(v.result.flag), u1, u2), friendName)
  {
    if NoAnswers(answers) then Redirect
    else
      var result := CalculateScore(answers);
      Show(result, PersonaliseAsWritten(GetResultMessage(FlagKey(result.flag), u1, u2), friendName), friendName)
  }

  /** Replacing the message of a shown screen gives the screen shown with the other
      message. */
  lemma ShowOtherMessage(result: ScoreResult, m1: ResultMessage, m2: ResultMessage, friendName: Option<string>)
    requires result.maxPossible == Some(TotalPossiblePoints)
    ensures Show(result, m1, friendName).Shown? && Show(result, m1, friendName).(message := m2) == Show(result, m2, friendName)
  {
  }

  /** The two renderings differ at most in the message, and not at all for a name
      without `$`. */
  lemma RenderAgreesWithoutDollar(answers: Option<seq<Option<Answer>>>, friendName: Option<string>, u1: real, u2: real)
    requires 0.0 <= u1 < 1.0 && 0.0 <= u2 < 1.0
    ensures var v, w := Render(answers, friendName, u1, u2), RenderAsWritten(answers, friendName, u1, u2);
      && (v.Redirect? <==> w.Redirect?)
      && (v.Shown? ==> v.(message := w.message) == w)
      && ('$' !in NameOrDefault(friendName) ==> v == w)
  {
    if !NoAnswers(answers) {
      var result := CalculateScore(answers);
      var m := GetResultMessage(FlagKey(result.flag), u1, u2);
      ShowOtherMessage(result, Personalise(m, friendName), PersonaliseAsWritten(m, friendName), friendName);
      if '$' !in NameOrDefault(friendName) {
        PersonaliseAgreesWithoutDollar(m, friendName);
      }
    }
  }

  /** Six valid answers and a name open a result screen: never a redirect, never the
      unknown emoji, a score of 6 to 30 and a title from the flag's pool with the name
      in its slot. */
  lemma RenderValid(answers: seq<Option<Answer>>, friendName: string, u1: real, u2: real)
    requires 0.0 <= u1 < 1.0 && 0.0 <= u2 < 1.0
    requires ValidateAnswers(Some(answers)) && friendName != []
    ensures var v := Render(Some(answers), Some(friendName), u1, u2);
      && v.Shown?
      && v.emoji != "❓"
      && 6 <= v.result.totalScore <= TotalPossiblePoints
      && 20 <= v.result.percentage <= 100
      && (exists i | 0 <= i < |Messages(v.result.flag).titles| ::
            v.message.title == Messages(v.result.flag).titles[i].before + friendName + Messages(v.result.flag).titles[i].after)
  {
    ValidatedBounds(answers);
    var v := Render(Some(answers), Some(friendName), u1, u2);
    PersonaliseDrawn(v.result.flag, u1, u2, Some(friendName));
  }

  /** A hand-off the results screen opens on: six valid answers, a name, and a shown
      result both with the literal substitution and as written. */
  predicate OpensResults(h: Handoff, u1: real, u2: real)
    requires 0.0 <= u1 < 1.0 && 0.0 <= u2 < 1.0
  {
    && ValidateAnswers(Some(Entries(h.answers)))
    && h.friendName != []
    && Render(Some(Entries(h.answers)), Some(h.friendName), u1, u2).Shown?
    && RenderAsWritten(Some(Entries(h.answers)), Some(h.friendName), u1, u2).Shown?
  }

  /** Any reachable state that has handed off on the app's catalogue opens a result
      screen. */
  lemma HandoffOpensResults(s: State, u1: real, u2: real)
    requires 0.0 <= u1 < 1.0 && 0.0 <= u2 < 1.0
    requires Inv(Catalogue, s) && s.handoff.Some?
    ensures OpensResults(s.handoff.value, u1, u2)
  {
    CatalogueReady();
    var h := s.handoff.value;
    HandoffValid(Catalogue, s);
    assert h.friendName != [];
    RenderValid(Entries(h.answers), h.friendName, u1, u2);
  }

  /** Whatever the events, a hand-off from the quiz on the app's catalogue, with the
      listener seeing the current name, opens a result screen. */
  lemma HandoffRenders(events: seq<Event>, u1: real, u2: real)
    requires 0.0 <= u1 < 1.0 && 0.0 <= u2 < 1.0
    ensures QuizReady(Catalogue) && Inv(Catalogue, Init()) &&
      var s := Run(Catalogue, Init(), events);
      s.handoff.Some? ==> OpensResults(s.handoff.value, u1, u2)
  {
    CatalogueHandoff(events);
    var s := Run(Catalogue, Init(), events);
    if s.handoff.Some? {
      HandoffOpensResults(s, u1, u2);
    }
  }

  /** The same for the quiz as written. */
  lemma HandoffRendersAsWritten(events: seq<Event>, u1: real, u2: real)
    requires 0.0 <= u1 < 1.0 && 0.0 <= u2 < 1.0
    ensures QuizReady(Catalogue) && Inv(Catalogue, Init()) &&
      var s := RunAsWritten(Catalogue, Init(), events);
      s.handoff.Some? ==> OpensResults(s.handoff.value, u1, u2)
  {
    CatalogueHandoff(events);
    var s := RunAsWritten(Catalogue, Init(), events);
    if s.handoff.Some? {
      HandoffOpensResults(s, u1, u2);
    }
  }
}
