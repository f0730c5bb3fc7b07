/** The score calculator: totals, percentage and flag of a set of answers, the answer
    validation gate, the result message pick, the share text and the per-category
    breakdown. Numbers are exact: points are integers, divisions are rationals and
    `Math.round` is "nearest integer, halves upwards". */
module ScoreCalculator {
  import opened Wrappers
  import opened Text
  import opened Questions

  /** One recorded answer. `points` is None when the field is missing, which the total
      counts as 0 as it does a `points` of 0; points are integers, so string, boolean and
      fractional values are outside the model. An empty `category` stands for a missing
      one (both fall back alike). */
  datatype Answer = Answer(questionId: int, selectedOption: Option<Choice>, points: Option<int>, category: string)

  /** What one entry of the answers array adds to the total: a null entry or a missing
      `points` adds 0. */
  function PointsOf(e: Option<Answer>): int {
    if e.Some? && e.value.points.Some? then e.value.points.value else 0
  }

  /** The left-to-right sum of the entries' points. */
  function Total(s: seq<Option<Answer>>): int {
    if s == [] then 0 else Total(s[..|s| - 1]) + PointsOf(s[|s| - 1])
  }

  /** The sum distributes over concatenation, so the order of the fold is immaterial. */
  lemma {:induction false} TotalAppend(a: seq<Option<Answer>>, b: seq<Option<Answer>>)
    ensures Total(a + b) == Total(a) + Total(b)
    decreases |b|
  {
    if b != [] {
      var c := a + b;
      assert c[..|c| - 1] == a + b[..|b| - 1];
      assert c[|c| - 1] == b[|b| - 1];
      TotalAppend(a, b[..|b| - 1]);
      assert Total(c) == Total(c[..|c| - 1]) + PointsOf(c[|c| - 1]);
    } else {
      assert a + b == a;
    }
  }

  /** `Math.round(n / d)` of an exact rational: the nearest integer, a half rounded up. */
  function RoundDiv(n: int, d: int): (r: int)
    requires d > 0
    ensures d * (2 * r - 1) <= 2 * n < d * (2 * r + 1)
  {
    var q := (2 * n + d) / (2 * d);
    assert 2 * n + d == 2 * d * q + (2 * n + d) % (2 * d);
    q
  }

  /** Rounding a larger rational never gives a smaller integer. */
  lemma RoundDivMonotone(n1: int, n2: int, d: int)
    requires d > 0 && n1 <= n2
    ensures RoundDiv(n1, d) <= RoundDiv(n2, d)
  {
    var r1, r2 := RoundDiv(n1, d), RoundDiv(n2, d);
    if r1 > r2 {
      MulMonotone(d, 2 * r2 + 1, 2 * r1 - 1);
      assert false;
    }
  }

  lemma MulMonotone(d: int, x: int, y: int)
    requires d > 0 && x <= y
    ensures d * x <= d * y
  {
    assert d * y - d * x == d * (y - x);
  }

  /** The percentage `Math.round(total / 30 * 100)`. */
  function Percentage(total: int): int {
    RoundDiv(100 * total, TotalPossiblePoints)
  }

  /** The flag of a total. */
  function FlagFor(total: int): (f: Flag)
    ensures f == GreenFlag <==> total >= GreenThreshold
    ensures f == YellowFlag <==> YellowThreshold <= total < GreenThreshold
    ensures f == RedFlag <==> total < YellowThreshold
  {
    if total >= GreenThreshold then GreenFlag
    else if total >= YellowThreshold then YellowFlag
    else RedFlag
  }

  /** The calculator's result object. The no-answers result carries a message and no
      maximum or question count; a scored result carries both and no message. */
  datatype ScoreResult = ScoreResult(
    totalScore: int,
    percentage: int,
    flag: Flag,
    maxPossible: Option<int>,
    questionCount: Option<int>,
    message: Option<string>)

  /** The answers argument is missing, not an array, or empty. */
  predicate NoAnswers(answers: Option<seq<Option<Answer>>>) {
    answers.None? || answers.value == []
  }

  function CalculateScore(answers: Option<seq<Option<Answer>>>): (r: ScoreResult)
    ensures NoAnswers(answers) ==>
      r == ScoreResult(0, 0, RedFlag, None, None, Some("No answers provided"))
    ensures !NoAnswers(answers) ==>
      && r.totalScore == Total(answers.value)
      && 3 * (2 * r.percentage - 1) <= 20 * r.totalScore < 3 * (2 * r.percentage + 1)
      && (r.flag == GreenFlag <==> r.totalScore >= GreenThreshold)
      && (r.flag == YellowFlag <==> YellowThreshold <= r.totalScore < GreenThreshold)
      && (r.flag == RedFlag <==> r.totalScore < YellowThreshold)
      && r.maxPossible == Some(TotalPossiblePoints)
      && r.questionCount == Some(TotalQuestions)
      && r.message.None?
  {
    if NoAnswers(answers) then
      ScoreResult(0, 0, RedFlag, None, None, Some("No answers provided"))
    else
      var total := Total(answers.value);
      ScoreResult(total, Percentage(total), FlagFor(total), Some(TotalPossiblePoints), Some(TotalQuestions), None)
  }

  /** A larger total never gives a worse flag or a smaller percentage. */
  lemma ScoreMonotone(a: seq<Option<Answer>>, b: seq<Option<Answer>>)
    requires a != [] && b != [] && Total(a) <= Total(b)
    ensures Rank(CalculateScore(Some(a)).flag) <= Rank(CalculateScore(Some(b)).flag)
    ensures CalculateScore(Some(a)).percentage <= CalculateScore(Some(b)).percentage
  {
    RoundDivMonotone(100 * Total(a), 100 * Total(b), TotalPossiblePoints);
  }

  /** Entries carrying only the given points. */
  function WithPoints(ps: seq<int>): (s: seq<Option<Answer>>)
    ensures |s| == |ps|
    ensures forall i | 0 <= i < |ps| :: PointsOf(s[i]) == ps[i]
  {
    seq(|ps|, i requires 0 <= i < |ps| => Some(Answer(0, None, Some(ps[i]), "")))
  }

  /** The calculator's worked examples: 23 points make 77%, six fives make a green 100%,
      ten points a red 33%, eighteen a yellow 60%, and no answers a red 0. */
  lemma CalculateScoreExamples()
    ensures var r := CalculateScore(Some(WithPoints([3, 4, 5, 2, 4, 5])));
      r.totalScore == 23 && r.percentage == 77 && r.maxPossible == Some(30) && r.questionCount == Some(6)
    ensures var r := CalculateScore(Some(WithPoints([5, 5, 5, 5, 5, 5])));
      r.flag == GreenFlag && r.totalScore == 30 && r.percentage == 100
    ensures var r := CalculateScore(Some(WithPoints([1, 1, 2, 2, 2, 2])));
      r.flag == RedFlag && r.totalScore == 10 && r.percentage == 33
    ensures var r := CalculateScore(Some(WithPoints([3, 3, 3, 3, 3, 3])));
      r.flag == YellowFlag && r.totalScore == 18 && r.percentage == 60
    ensures var r := CalculateScore(Some([]));
      r.totalScore == 0 && r.percentage == 0 && r.flag == RedFlag
  {
    TotalOfSix(WithPoints([3, 4, 5, 2, 4, 5]));
    TotalOfSix(WithPoints([5, 5, 5, 5, 5, 5]));
    TotalOfSix(WithPoints([1, 1, 2, 2, 2, 2]));
    TotalOfSix(WithPoints([3, 3, 3, 3, 3, 3]));
  }

  lemma TotalSnoc(s: seq<Option<Answer>>, k: nat)
    requires k < |s|
    ensures Total(s[..k + 1]) == Total(s[..k]) + PointsOf(s[k])
  {
    assert s[..k + 1][..k] == s[..k];
  }

  lemma TotalOfSix(s: seq<Option<Answer>>)
    requires |s| == 6
    ensures Total(s) == PointsOf(s[0]) + PointsOf(s[1]) + PointsOf(s[2])
                      + PointsOf(s[3]) + PointsOf(s[4]) + PointsOf(s[5])
  {
    TotalSnoc(s, 0); TotalSnoc(s, 1); TotalSnoc(s, 2);
    TotalSnoc(s, 3); TotalSnoc(s, 4); TotalSnoc(s, 5);
    assert s[..6] == s;
  }

  // ---------------------------------------------------------------------------
  // Validation

  /** An entry that is present and has numeric points in [1, 5]. */
  predicate ValidEntry(e: Option<Answer>) {
    e.Some? && e.value.points.Some? && 1 <= e.value.points.value <= MaxPointsPerQuestion
  }

  function AllValid(s: seq<Option<Answer>>): (r: bool)
    ensures r <==> forall i | 0 <= i < |s| :: ValidEntry(s[i])
  {
    if s == [] then true
    else
      assert forall i | 1 <= i < |s| :: s[i] == s[1..][i - 1];
      ValidEntry(s[0]) && AllValid(s[1..])
  }

  function ValidateAnswers(answers: Option<seq<Option<Answer>>>): (r: bool)
    ensures r <==> && answers.Some?
                   && |answers.value| == TotalQuestions
                   && forall i | 0 <= i < |answers.value| :: ValidEntry(answers.value[i])
  {
    answers.Some? && |answers.value| == TotalQuestions && AllValid(answers.value)
  }

  /** The validation examples: a full set of in-range points passes; the empty array,
      a single answer and an out-of-range single answer do not. */
  lemma ValidateAnswersExamples()
    ensures ValidateAnswers(Some(WithPoints([3, 4, 5, 2, 4, 1])))
    ensures !ValidateAnswers(Some([]))
    ensures !ValidateAnswers(Some(WithPoints([3])))
    ensures !ValidateAnswers(Some(WithPoints([6])))
    ensures !ValidateAnswers(None)
  {
  }

  lemma {:induction false} TotalOfValid(s: seq<Option<Answer>>)
    requires forall i | 0 <= i < |s| :: ValidEntry(s[i])
    ensures |s| <= Total(s) <= MaxPointsPerQuestion * |s|
  {
    if s != [] {
      TotalOfValid(s[..|s| - 1]);
    }
  }

  /** Validated answers score between 6 and 30 points, that is 20% to 100%. */
  lemma ValidatedBounds(s: seq<Option<Answer>>)
    requires ValidateAnswers(Some(s))
    ensures 6 <= CalculateScore(Some(s)).totalScore <= TotalPossiblePoints
    ensures 20 <= CalculateScore(Some(s)).percentage <= 100
  {
    TotalOfValid(s);
  }

  // ---------------------------------------------------------------------------
  // Result messages

  datatype ResultMessage = ResultMessage(title: string, description: string)

  const UnknownResult: ResultMessage :=
    ResultMessage("Unknown Result", "Something went wrong with your score calculation!")

  /** `Math.floor(u * n)` for a draw `u` of `Math.random()`. */
  function PoolIndex(u: real, n: nat): (i: nat)
    requires 0.0 <= u < 1.0 && n > 0
    ensures i < n
    ensures i as real <= u * n as real < (i + 1) as real
  {
    (u * n as real).Floor
  }

  /** The texts of a pool's title or description templates. */
  function Texts(slots: seq<Slotted>): (r: seq<string>)
    ensures |r| == |slots|
    ensures forall i | 0 <= i < |slots| :: r[i] == slots[i].Text()
  {
    seq(|slots|, i requires 0 <= i < |slots| => slots[i].Text())
  }

  /** Picks a title and a description for a flag key, with the two draws of
      `Math.random()` passed in. */
  function GetResultMessage(flagType: string, u1: real, u2: real): (r: ResultMessage)
    requires 0.0 <= u1 < 1.0 && 0.0 <= u2 < 1.0
    ensures ParseFlag(flagType).None? ==> r == UnknownResult
    ensures ParseFlag(flagType).Some? ==>
      && r.title in Texts(Messages(ParseFlag(flagType).value).titles)
      && r.description in Texts(Messages(ParseFlag(flagType).value).descriptions)
  {
    match ParseFlag(flagType)
    case None => UnknownResult
    case Some(f) =>
      var pool := Messages(f);
      MessagePoolsWellFormed(f);
      ResultMessage(
        pool.titles[PoolIndex(u1, |pool.titles|)].Text(),
        pool.descriptions[PoolIndex(u2, |pool.descriptions|)].Text())
  }

  /** The title depends only on the first draw and the description only on the second,
      and every pair of pool entries is picked by some pair of draws. */
  lemma GetResultMessageCovers(f: Flag, i: nat, j: nat, u1: real, u2: real)
    requires i < 3 && j < 3 && 0.0 <= u1 < 1.0 && 0.0 <= u2 < 1.0
    ensures GetResultMessage(FlagKey(f), u1, u2).title == GetResultMessage(FlagKey(f), u1, 0.0).title
    ensures GetResultMessage(FlagKey(f), u1, u2).description == GetResultMessage(FlagKey(f), 0.0, u2).description
    ensures var r := GetResultMessage(FlagKey(f), i as real / 3.0, j as real / 3.0);
      r.title == Messages(f).titles[i].Text() && r.description == Messages(f).descriptions[j].Text()
  {
    MessagePoolsWellFormed(f);
    ParseFlagKey(f);
    PoolIndexOfThird(i);
    PoolIndexOfThird(j);
  }

  lemma PoolIndexOfThird(i: nat)
    requires i < 3
    ensures PoolIndex(i as real / 3.0, 3) == i
  {
    assert i as real / 3.0 * 3 as real == i as real;
  }

  // ---------------------------------------------------------------------------
  // Share text

  /** The label and the emoji a flag is shared with. */
  function FlagName(f: Flag): string {
    match f
    case GreenFlag => "Green Flag"
    case YellowFlag => "Yellow Flag"
    case RedFlag => "Red Flag"
  }

  function FlagEmoji(f: Flag): string {
    match f
    case GreenFlag => "🟢"
    case YellowFlag => "🟡"
    case RedFlag => "🔴"
  }

  const ShareLead: string := "I just assessed "
  const ShareVerdict: string := " in the Green Flag Quiz and they're a "
  /** What follows the percentage: a blank line and the invitation. */
  const ShareClosing: string :=
    " \n  \nTake the quiz and see what kind of friend YOUR friends are! 👫 #GreenFlagQuiz #FriendshipGoals"

  /** The percentage as the share text writes it. */
  function PercentText(result: ScoreResult): string {
    IntToDecimal(result.percentage) + "% friend score)"
  }

  /** The share text's parts after the name: the verdict with the flag's label, then its
      emoji, then the percentage and the closing invitation. */
  function ShareScore(result: ScoreResult): string {
    " (" + PercentText(result) + ShareClosing
  }

  function ShareTail(result: ScoreResult): string {
    " friend! " + FlagEmoji(result.flag) + ShareScore(result)
  }

  function ShareRest(result: ScoreResult): string {
    ShareVerdict + FlagName(result.flag) + ShareTail(result)
  }

  /** The share text: the lead, the name, which defaults to "My Friend" only when it is
      absent, and then the rest of the template, with nothing else. */
  function GenerateShareText(result: ScoreResult, friendName: Option<string>): (r: string)
    ensures var name := friendName.GetOr("My Friend");
      && |r| == |ShareLead| + |name| + |ShareRest(result)|
      && MatchAt(r, ShareLead, 0)
      && MatchAt(r, name, |ShareLead|)
      && MatchAt(r, ShareRest(result), |ShareLead| + |name|)
      && Contains(r, FlagName(result.flag))
      && Contains(r, FlagEmoji(result.flag))
      && Contains(r, PercentText(result))
  {
    var name := friendName.GetOr("My Friend");
    var rest := ShareRest(result);
    Layout(ShareLead, name, rest);
    ShareRestContains(result);
    ContainsInSuffix(ShareLead + name, rest, FlagName(result.flag));
    ContainsInSuffix(ShareLead + name, rest, FlagEmoji(result.flag));
    ContainsInSuffix(ShareLead + name, rest, PercentText(result));
    ShareLead + name + rest
  }

  /** The rest of the template holds the label, the emoji and the percentage. */
  lemma ShareRestContains(result: ScoreResult)
    ensures Contains(ShareRest(result), FlagName(result.flag))
    ensures Contains(ShareRest(result), FlagEmoji(result.flag))
    ensures Contains(ShareRest(result), PercentText(result))
  {
    var v, l, t := ShareVerdict, FlagName(result.flag), ShareTail(result);
    var e, sc, pc := FlagEmoji(result.flag), ShareScore(result), PercentText(result);
    ContainsSelf(l);
    ContainsInSuffix(v, l, l);
    ContainsInPrefix(v + l, t, l);
    ContainsSelf(e);
    ContainsInSuffix(" friend! ", e, e);
    ContainsInPrefix(" friend! " + e, sc, e);
    ContainsInSuffix(v + l, t, e);
    ContainsSelf(pc);
    ContainsInSuffix(" (", pc, pc);
    ContainsInPrefix(" (" + pc, ShareClosing, pc);
    ContainsInSuffix(" friend! " + e, sc, pc);
    ContainsInSuffix(v + l, t, pc);
  }

  /** The label follows the verdict, so results with different flags never share a text. */
  lemma ShareTextDeterminesFlag(r1: ScoreResult, r2: ScoreResult, friendName: Option<string>)
    requires r1.flag != r2.flag
    ensures GenerateShareText(r1, friendName) != GenerateShareText(r2, friendName)
  {
    var name := friendName.GetOr("My Friend");
    var t1, t2 := GenerateShareText(r1, friendName), GenerateShareText(r2, friendName);
    var k := |ShareLead| + |name|;
    HeadAfter(ShareVerdict, FlagName(r1.flag), ShareTail(r1));
    HeadAfter(ShareVerdict, FlagName(r2.flag), ShareTail(r2));
    assert t1[k + |ShareVerdict|] == ShareRest(r1)[|ShareVerdict|];
    assert t2[k + |ShareVerdict|] == ShareRest(r2)[|ShareVerdict|];
  }

  lemma Layout(a: string, b: string, c: string)
    ensures var s := a + b + c;
      && |s| == |a| + |b| + |c|
      && MatchAt(s, a, 0) && MatchAt(s, b, |a|) && MatchAt(s, c, |a| + |b|)
  {
    var s := a + b + c;
    assert s[..|a|] == a;
    assert s[|a|..|a| + |b|] == b;
    assert s[|a| + |b|..|a| + |b| + |c|] == c;
  }

  lemma HeadAfter(x: string, v: string, y: string)
    requires |v| > 0
    ensures (x + v + y)[|x|] == v[0]
  {
  }

  lemma ContainsSelf(p: string)
    ensures Contains(p, p)
  {
    assert p[0..|p|] == p;
    assert MatchAt(p, p, 0);
  }

  lemma ContainsInPrefix(t: string, y: string, p: string)
    requires Contains(t, p)
    ensures Contains(t + y, p)
  {
    var i :| 0 <= i <= |t| && MatchAt(t, p, i);
    assert (t + y)[i..i + |p|] == t[i..i + |p|];
    assert MatchAt(t + y, p, i);
  }

  lemma ContainsInSuffix(x: string, t: string, p: string)
    requires Contains(t, p)
    ensures Contains(x + t, p)
  {
    var i :| 0 <= i <= |t| && MatchAt(t, p, i);
    assert (x + t)[|x| + i..|x| + i + |p|] == t[i..i + |p|];
    assert MatchAt(x + t, p, |x| + i);
  }

  /** Two share texts of the same result are equal only for the same name. */
  lemma ShareTextDeterminesName(result: ScoreResult, n1: Option<string>, n2: Option<string>)
    requires GenerateShareText(result, n1) == GenerateShareText(result, n2)
    ensures n1.GetOr("My Friend") == n2.GetOr("My Friend")
  {
    var a, b := n1.GetOr("My Friend"), n2.GetOr("My Friend");
    var t1, t2 := GenerateShareText(result, n1), GenerateShareText(result, n2);
    assert |t1| - |a| == |t2| - |b|;
    assert a == t1[|ShareLead|..|ShareLead| + |a|];
  }

  // ---------------------------------------------------------------------------
  // Breakdown by category

  /** A category's running tally while the answers are grouped. */
  datatype Tally = Tally(score: int, questions: nat)

  /** A category's entry in the finished breakdown. */
  datatype CategoryScore = CategoryScore(score: int, maxPossible: int, questions: nat, percentage: int)

  /** The key an answer at `index` is grouped under: its category, or `question_<index+1>`
      when it has none. */
  function GroupKey(a: Answer, index: nat): string {
    if a.category == "" then "question_" + NatToDecimal(index + 1) else a.category
  }

  predicate HasPoints(answers: seq<Answer>) {
    forall i | 0 <= i < |answers| :: answers[i].points.Some?
  }

  /** An object's own properties in insertion order: distinct keys. */
  predicate DistinctKeys<T>(b: seq<(string, T)>) {
    forall i, j | 0 <= i < j < |b| :: b[i].0 != b[j].0
  }

  /** The position of a key. */
  function Find<T>(b: seq<(string, T)>, key: string): (r: Option<nat>)
    ensures r.Some? ==> r.value < |b| && b[r.value].0 == key
    ensures r.None? <==> forall i | 0 <= i < |b| :: b[i].0 != key
  {
    if b == [] then None
    else if b[|b| - 1].0 == key then Some(|b| - 1)
    else Find(b[..|b| - 1], key)
  }

  /** The tally of a key; a key not yet present reads as nothing counted. */
  function Get(b: seq<(string, Tally)>, key: string): Tally {
    match Find(b, key)
    case Some(i) => b[i].1
    case None => Tally(0, 0)
  }

  /** With distinct keys, the tally at a position is the tally of its key. */
  lemma GetAt(b: seq<(string, Tally)>, i: nat)
    requires DistinctKeys(b) && i < |b|
    ensures Get(b, b[i].0) == b[i].1
  {
  }

  /** Adds one answer's points to its key, creating the key when it is new. */
  function AddTo(b: seq<(string, Tally)>, key: string, points: int): seq<(string, Tally)> {
    match Find(b, key)
    case Some(i) => b[i := (key, Tally(b[i].1.score + points, b[i].1.questions + 1))]
    case None => b + [(key, Tally(points, 1))]
  }

  /** Two lists with the same key at every position find the same keys. */
  lemma SameKeys<T, U>(b: seq<(string, T)>, c: seq<(string, U)>)
    requires |b| == |c| && forall j | 0 <= j < |b| :: c[j].0 == b[j].0
    ensures forall k :: Find(c, k).Some? <==> Find(b, k).Some?
  {
    forall k ensures Find(c, k).Some? <==> Find(b, k).Some? {
      if Find(c, k).Some? { assert b[Find(c, k).value].0 == k; }
      if Find(b, k).Some? { assert c[Find(b, k).value].0 == k; }
    }
  }

  /** Adding to a key keeps the keys distinct, changes that key's tally by one answer and
      no other key's, and counts one more answer overall. */
  lemma AddToEffect(b: seq<(string, Tally)>, key: string, points: int)
    requires DistinctKeys(b)
    ensures var c := AddTo(b, key, points);
      && DistinctKeys(c)
      && (forall k :: Find(c, k).Some? <==> Find(b, k).Some? || k == key)
      && Get(c, key) == Tally(Get(b, key).score + points, Get(b, key).questions + 1)
      && (forall k | k != key :: Get(c, k) == Get(b, k))
      && SumQuestions(c) == SumQuestions(b) + 1
  {
    match Find(b, key)
    case Some(i) => AddToPresent(b, key, points, i);
    case None => AddToAbsent(b, key, points);
  }

  lemma AddToPresent(b: seq<(string, Tally)>, key: string, points: int, i: nat)
    requires DistinctKeys(b) && Find(b, key) == Some(i)
    ensures var c := AddTo(b, key, points);
      && DistinctKeys(c)
      && (forall k :: Find(c, k).Some? <==> Find(b, k).Some? || k == key)
      && Get(c, key) == Tally(Get(b, key).score + points, Get(b, key).questions + 1)
      && (forall k | k != key :: Get(c, k) == Get(b, k))
      && SumQuestions(c) == SumQuestions(b) + 1
  {
    var e := (key, Tally(b[i].1.score + points, b[i].1.questions + 1));
    var c := AddTo(b, key, points);
    assert c == b[i := e];
    SumQuestionsUpdate(b, i, e);
    UpdateKeepsOthers(b, i, e);
    GetAt(c, i);
  }

  /** Replacing the tally at one position under the same key keeps the keys and every
      other key's tally. */
  lemma UpdateKeepsOthers(b: seq<(string, Tally)>, i: nat, e: (string, Tally))
    requires DistinctKeys(b) && i < |b| && e.0 == b[i].0
    ensures DistinctKeys(b[i := e])
    ensures forall k :: Find(b[i := e], k).Some? <==> Find(b, k).Some?
    ensures forall k | k != e.0 :: Get(b[i := e], k) == Get(b, k)
  {
    var c := b[i := e];
    assert forall j | 0 <= j < |b| :: c[j].0 == b[j].0;
    SameKeys(b, c);
    forall k | k != e.0 ensures Get(c, k) == Get(b, k) {
      if Find(b, k).Some? {
        var j := Find(b, k).value;
        GetAt(c, j);
        GetAt(b, j);
      }
    }
  }

  lemma AddToAbsent(b: seq<(string, Tally)>, key: string, points: int)
    requires DistinctKeys(b) && Find(b, key).None?
    ensures var c := AddTo(b, key, points);
      && DistinctKeys(c)
      && (forall k :: Find(c, k).Some? <==> Find(b, k).Some? || k == key)
      && Get(c, key) == Tally(Get(b, key).score + points, Get(b, key).questions + 1)
      && (forall k | k != key :: Get(c, k) == Get(b, k))
      && SumQuestions(c) == SumQuestions(b) + 1
  {
    AppendKeepsOthers(b, (key, Tally(points, 1)));
  }

  /** Appending a new key keeps the keys distinct and every other key's tally. */
  lemma AppendKeepsOthers(b: seq<(string, Tally)>, e: (string, Tally))
    requires DistinctKeys(b) && Find(b, e.0).None?
    ensures DistinctKeys(b + [e])
    ensures forall k :: Find(b + [e], k).Some? <==> Find(b, k).Some? || k == e.0
    ensures Get(b + [e], e.0) == e.1
    ensures forall k | k != e.0 :: Get(b + [e], k) == Get(b, k)
    ensures SumQuestions(b + [e]) == SumQuestions(b) + e.1.questions
  {
    var c := b + [e];
    assert c[..|c| - 1] == b;
    forall k | k != e.0 ensures Find(c, k) == Find(b, k) {
    }
  }

  function Tallies(answers: seq<Answer>): seq<(string, Tally)>
    requires HasPoints(answers)
  {
    if answers == [] then []
    else
      var n := |answers| - 1;
      AddTo(Tallies(answers[..n]), GroupKey(answers[n], n), answers[n].points.value)
  }

  /** The points of the answers grouped under `key`. */
  function ScoreIn(answers: seq<Answer>, key: string): int
    requires HasPoints(answers)
  {
    if answers == [] then 0
    else
      var n := |answers| - 1;
      ScoreIn(answers[..n], key) + (if GroupKey(answers[n], n) == key then answers[n].points.value else 0)
  }

  /** The number of answers grouped under `key`. */
  function CountIn(answers: seq<Answer>, key: string): nat {
    if answers == [] then 0
    else
      var n := |answers| - 1;
      CountIn(answers[..n], key) + (if GroupKey(answers[n], n) == key then 1 else 0)
  }

  function SumQuestions(b: seq<(string, Tally)>): nat {
    if b == [] then 0 else SumQuestions(b[..|b| - 1]) + b[|b| - 1].1.questions
  }

  lemma {:induction false} SumQuestionsUpdate(b: seq<(string, Tally)>, i: nat, e: (string, Tally))
    requires i < |b| && e.1.questions == b[i].1.questions + 1
    ensures SumQuestions(b[i := e]) == SumQuestions(b) + 1
  {
    var n := |b| - 1;
    if i == n {
      assert b[i := e][..n] == b[..n];
    } else {
      assert b[i := e][..n] == b[..n][i := e];
      SumQuestionsUpdate(b[..n], i, e);
    }
  }

  /** Grouping keeps the keys distinct, gives every key the score and count of exactly
      the answers grouped under it, lists exactly the keys some answer falls under, and
      counts every answer once. */
  lemma {:induction false} TalliesCorrect(answers: seq<Answer>)
    requires HasPoints(answers)
    ensures var t := Tallies(answers);
      && DistinctKeys(t)
      && (forall key :: Get(t, key) == Tally(ScoreIn(answers, key), CountIn(answers, key)))
      && (forall key :: Find(t, key).Some? <==> CountIn(answers, key) > 0)
      && SumQuestions(t) == |answers|
  {
    if answers != [] {
      var n := |answers| - 1;
      var prefix := answers[..n];
      assert HasPoints(prefix);
      TalliesCorrect(prefix);
      var b, key, points := Tallies(prefix), GroupKey(answers[n], n), answers[n].points.value;
      AddToEffect(b, key, points);
      var t := Tallies(answers);
      assert t == AddTo(b, key, points);
      forall k ensures Get(t, k) == Tally(ScoreIn(answers, k), CountIn(answers, k)) {
        assert ScoreIn(answers, k) == ScoreIn(prefix, k) + (if key == k then points else 0);
        assert CountIn(answers, k) == CountIn(prefix, k) + (if key == k then 1 else 0);
      }
      forall k ensures Find(t, k).Some? <==> CountIn(answers, k) > 0 {
        assert CountIn(answers, k) == CountIn(prefix, k) + (if key == k then 1 else 0);
      }
    }
  }

  /** The breakdown: per key the score, the per-question maximum 5, the number of
      questions and `Math.round(score / 5 * 100)`. */
  function GetScoreBreakdown(answers: seq<Answer>): (r: seq<(string, CategoryScore)>)
    requires HasPoints(answers)
    ensures DistinctKeys(r)
    ensures forall key :: Find(r, key).Some? <==> CountIn(answers, key) > 0
    ensures forall i | 0 <= i < |r| ::
      && r[i].1.score == ScoreIn(answers, r[i].0)
      && r[i].1.questions == CountIn(answers, r[i].0)
      && r[i].1.maxPossible == MaxPointsPerQuestion
      && r[i].1.percentage == 20 * r[i].1.score
    ensures CountsTotal(r) == |answers|
  {
    var t := Tallies(answers);
    TalliesCorrect(answers);
    var r := seq(|t|, i requires 0 <= i < |t| =>
      (t[i].0, CategoryScore(t[i].1.score, MaxPointsPerQuestion, t[i].1.questions,
                             RoundDiv(100 * t[i].1.score, MaxPointsPerQuestion))));
    forall i | 0 <= i < |t| ensures t[i].1 == Get(t, t[i].0) {
      GetAt(t, i);
    }
    SameKeys(t, r);
    CountsTotalOfTallies(t, r);
    r
  }

  function CountsTotal(b: seq<(string, CategoryScore)>): nat {
    if b == [] then 0 else CountsTotal(b[..|b| - 1]) + b[|b| - 1].1.questions
  }

  lemma {:induction false} CountsTotalOfTallies(t: seq<(string, Tally)>, r: seq<(string, CategoryScore)>)
    requires |t| == |r| && forall i | 0 <= i < |t| :: r[i].1.questions == t[i].1.questions
    ensures CountsTotal(r) == SumQuestions(t)
  {
    if t != [] {
      CountsTotalOfTallies(t[..|t| - 1], r[..|r| - 1]);
    }
  }
}
