/** String helpers with the semantics of the ECMAScript built-ins the views call:
    `trim`, `indexOf`, `replace` with a string pattern, global single-character and
    whitespace-run replacement, ASCII upper-casing and integer-to-decimal conversion.
    Whitespace and letters are restricted to ASCII. */
module Text {
  import opened Wrappers

  /** The ASCII members of ECMAScript WhiteSpace and LineTerminator, which both `\s`
      and `String.prototype.trim` recognise. */
  predicate IsWhitespace(c: char) {
    c == ' ' || c == '\t' || c == '\n' || c == '\U{000B}' || c == '\U{000C}' || c == '\r'
  }

  predicate IsBlank(s: string) {
    forall i | 0 <= i < |s| :: IsWhitespace(s[i])
  }

  predicate HasNoWhitespace(s: string) {
    forall i | 0 <= i < |s| :: !IsWhitespace(s[i])
  }

  // ---------------------------------------------------------------------------
  // trim

  /** `s` without its leading whitespace. */
  function TrimStart(s: string): (r: string)
    ensures |r| <= |s| && r == s[|s| - |r|..]
    ensures IsBlank(s[..|s| - |r|])
    ensures r == [] || !IsWhitespace(r[0])
  {
    if s != [] && IsWhitespace(s[0]) then TrimStart(s[1..]) else s
  }

  /** `s` without its trailing whitespace. */
  function TrimEnd(s: string): (r: string)
    ensures |r| <= |s| && r == s[..|r|]
    ensures IsBlank(s[|r|..])
    ensures r == [] || !IsWhitespace(r[|r| - 1])
  {
    if s != [] && IsWhitespace(s[|s| - 1]) then TrimEnd(s[..|s| - 1]) else s
  }

  /** `r` is the part of `s` from index `k` on, with only whitespace before and after. */
  predicate Framed(s: string, r: string, k: int) {
    0 <= k <= |s| - |r| && r == s[k..k + |r|] && IsBlank(s[..k]) && IsBlank(s[k + |r|..])
  }

  /** `String.prototype.trim`: the text between a blank prefix and a blank suffix. */
  function Trim(s: string): (r: string)
    ensures r == [] || (!IsWhitespace(r[0]) && !IsWhitespace(r[|r| - 1]))
    ensures exists k :: Framed(s, r, k)
  {
    var t := TrimStart(s);
    var r := TrimEnd(t);
    var k := |s| - |t|;
    assert s[k..k + |r|] == r;
    assert s[k + |r|..] == t[|r|..];
    assert Framed(s, r, k);
    r
  }

  /** A trimmed string is empty exactly when the original holds only whitespace;
      this is when `friendName.trim()` in Quiz.jsx is falsy. */
  lemma {:induction false} TrimEmptyIffBlank(s: string)
    ensures Trim(s) == [] <==> IsBlank(s)
  {
    var t := TrimStart(s);
    var k := |s| - |t|;
    if Trim(s) == [] {
      // What TrimEnd removed from t is all of t, so t is blank; it starts with no
      // whitespace, hence it is empty and all of s was leading whitespace.
      assert t[|TrimEnd(t)|..] == t;
      assert t == [];
      assert s[..k] == s;
    } else {
      assert t != [];
      assert s[k] == t[0];
    }
  }

  // ---------------------------------------------------------------------------
  // Searching

  /** `p` occurs in `s` starting at index `i`. */
  predicate MatchAt(s: string, p: string, i: int) {
    0 <= i && i + |p| <= |s| && s[i..i + |p|] == p
  }

  predicate Contains(s: string, p: string) {
    exists i | 0 <= i <= |s| :: MatchAt(s, p, i)
  }

  /** `i` is the first index where `p` occurs in `s`. */
  predicate FirstMatch(s: string, p: string, i: int) {
    MatchAt(s, p, i) && forall j | 0 <= j < i :: !MatchAt(s, p, j)
  }

  /** The first index at or after `k` where `p` occurs in `s`. */
  function IndexFrom(s: string, p: string, k: nat): (r: Option<nat>)
    requires k <= |s|
    ensures r.Some? ==> k <= r.value && MatchAt(s, p, r.value)
    ensures r.Some? ==> forall j | k <= j < r.value :: !MatchAt(s, p, j)
    ensures r.None? ==> forall j | k <= j :: !MatchAt(s, p, j)
    decreases |s| - k
  {
    if k + |p| > |s| then None
    else if s[k..k + |p|] == p then Some(k)
    else if k == |s| then None
    else IndexFrom(s, p, k + 1)
  }

  /** `String.prototype.indexOf` with a string argument: the first occurrence. */
  function IndexOf(s: string, p: string): (r: Option<nat>)
    ensures r.Some? ==> MatchAt(s, p, r.value) && forall j | 0 <= j < r.value :: !MatchAt(s, p, j)
    ensures r.None? <==> !Contains(s, p)
  {
    IndexFrom(s, p, 0)
  }

  /** When the first character of `p` does not occur in `b`, the first occurrence of
      `p` in `b + p + a` is the one right after `b`. */
  lemma FirstOccurrenceAfter(b: string, p: string, a: string)
    requires |p| > 0 && p[0] !in b
    ensures IndexOf(b + p + a, p) == Some(|b|)
  {
    var s := b + p + a;
    assert s[|b|..|b| + |p|] == p;
    assert MatchAt(s, p, |b|);
  }

  /** The indices where `p` occurs in `s`. */
  function Occurrences(s: string, p: string): (r: set<int>)
    ensures forall i :: i in r <==> MatchAt(s, p, i)
  {
    set i | 0 <= i <= |s| && MatchAt(s, p, i)
  }

  /** When the first character of `p` occurs nowhere else in `b + p + a`, `p` occurs
      there exactly once. */
  lemma SingleOccurrence(b: string, p: string, a: string)
    requires |p| > 0 && p[0] !in b && p[0] !in p[1..] && p[0] !in a
    ensures Occurrences(b + p + a, p) == {|b|}
  {
    var s := b + p + a;
    assert s[|b|..|b| + |p|] == p;
    forall i | MatchAt(s, p, i) ensures i == |b| {
      assert s[i] == s[i..i + |p|][0] == p[0];
    }
  }

  /** Filling the slot of `b + p + a` with a text `x` that lacks `p` leaves no `p`,
      when `p` starts with a character absent from `b` and `a`, and ends with one
      absent from `a`. */
  lemma NoOccurrenceAfterFill(b: string, x: string, a: string, p: string)
    requires |p| > 0 && p[0] !in b && p[0] !in a && p[|p| - 1] !in a
    requires !Contains(x, p)
    ensures !Contains(b + x + a, p)
  {
    var s := b + x + a;
    if Contains(s, p) {
      var i :| 0 <= i <= |s| && MatchAt(s, p, i);
      assert s[i] == s[i..i + |p|][0] == p[0];
      assert s[i + |p| - 1] == s[i..i + |p|][|p| - 1] == p[|p| - 1];
      assert x[i - |b|..i - |b| + |p|] == s[i..i + |p|];
      assert MatchAt(x, p, i - |b|);
    }
  }

  // ---------------------------------------------------------------------------
  // String.prototype.replace with a string pattern

  /** The replacement text that ECMAScript's GetSubstitution operation produces for a
      match without capture groups: `$$` becomes `$`, `$&` the matched text, `` $` ``
      the text before the match, `$'` the text after it; every other `$` stays as is. */
  function Substitution(rep: string, matched: string, before: string, after: string): (r: string)
    ensures '$' !in rep ==> r == rep
    ensures rep == "$&" ==> r == matched
    ensures rep == "$$" ==> r == "$"
    ensures rep == "$`" ==> r == before
    ensures rep == "$'" ==> r == after
    decreases |rep|
  {
    if |rep| == 0 then []
    else if rep[0] == '$' && |rep| >= 2 && rep[1] in "$&`'" then
      (match rep[1]
       case '$' => "$"
       case '&' => matched
       case '`' => before
       case _ => after)
      + Substitution(rep[2..], matched, before, after)
    else
      assert rep == [rep[0]] + rep[1..];
      [rep[0]] + Substitution(rep[1..], matched, before, after)
  }

  /** The expansion works piece by piece: a replacement split after a character other
      than `$` expands to the expansions of its two parts, so a `$` pattern anywhere in
      a longer replacement is expanded in place. */
  lemma {:induction false} SubstitutionAppend(x: string, y: string, matched: string, before: string, after: string)
    requires x == [] || x[|x| - 1] != '$'
    ensures Substitution(x + y, matched, before, after)
         == Substitution(x, matched, before, after) + Substitution(y, matched, before, after)
    decreases |x|
  {
    if x == [] {
      assert x + y == y;
    } else {
      var s := x + y;
      assert s[0] == x[0];
      if x[0] == '$' && |x| >= 2 && x[1] in "$&`'" {
        assert s[1] == x[1];
        assert s[2..] == x[2..] + y;
        SubstitutionAppend(x[2..], y, matched, before, after);
        var h := match x[1] case '$' => "$" case '&' => matched case '`' => before case _ => after;
        ConcatAssoc(h, Substitution(x[2..], matched, before, after), Substitution(y, matched, before, after));
      } else {
        if x[0] == '$' {
          assert |x| >= 2 && s[1] == x[1];
        }
        assert s[1..] == x[1..] + y;
        SubstitutionAppend(x[1..], y, matched, before, after);
        ConcatAssoc([x[0]], Substitution(x[1..], matched, before, after), Substitution(y, matched, before, after));
      }
    }
  }

  /** A name holding `$&` after text that does not end in `$` shows the matched text in
      its place. */
  lemma SubstitutionOfInnerPattern(x: string, y: string, matched: string, before: string, after: string)
    requires x == [] || x[|x| - 1] != '$'
    ensures Substitution(x + "$&" + y, matched, before, after)
         == Substitution(x, matched, before, after) + matched + Substitution(y, matched, before, after)
  {
    ConcatAssoc(x, "$&", y);
    SubstitutionAppend(x, "$&" + y, matched, before, after);
    SubstitutionAppend("$&", y, matched, before, after);
    ConcatAssoc(Substitution(x, matched, before, after), matched, Substitution(y, matched, before, after));
  }

  /** `s.replace(p, rep)` for a string `p`: the first occurrence of `p` is replaced by
      the GetSubstitution expansion of `rep`. */
  function ReplaceFirst(s: string, p: string, rep: string): (r: string)
    ensures !Contains(s, p) ==> r == s
    ensures Contains(s, p) ==>
      exists i :: FirstMatch(s, p, i) && r == s[..i] + Substitution(rep, p, s[..i], s[i + |p|..]) + s[i + |p|..]
    ensures rep == "$&" ==> r == s
  {
    match IndexOf(s, p)
    case None => s
    case Some(i) =>
      assert FirstMatch(s, p, i);
      Reassemble(s, p, i);
      s[..i] + Substitution(rep, p, s[..i], s[i + |p|..]) + s[i + |p|..]
  }

  /** Putting a matched piece back where it was gives the text again. */
  lemma Reassemble(s: string, p: string, i: int)
    requires MatchAt(s, p, i)
    ensures s[..i] + p + s[i + |p|..] == s
  {
    assert s[..i] + s[i..i + |p|] + s[i + |p|..] == s;
  }

  /** Replaces the first occurrence of `p` by `rep` taken literally: what the views'
      placeholder substitution is meant to do. */
  function ReplaceFirstLiteral(s: string, p: string, rep: string): (r: string)
    ensures !Contains(s, p) ==> r == s
    ensures Contains(s, p) ==> exists i :: FirstMatch(s, p, i) && r == s[..i] + rep + s[i + |p|..]
  {
    match IndexOf(s, p)
    case None => s
    case Some(i) =>
      assert FirstMatch(s, p, i);
      s[..i] + rep + s[i + |p|..]
  }

  /** Without a `$` in the replacement the two replacements agree. */
  lemma ReplaceFirstWithoutDollar(s: string, p: string, rep: string)
    requires '$' !in rep
    ensures ReplaceFirst(s, p, rep) == ReplaceFirstLiteral(s, p, rep)
  {
    var r := IndexOf(s, p);
    if r.Some? {
      var i := r.value;
      assert Substitution(rep, p, s[..i], s[i + |p|..]) == rep;
      assert ReplaceFirst(s, p, rep) == s[..i] + rep + s[i + |p|..];
    }
  }

  /** Filling the slot of `b + p + a` literally gives `b + rep + a`. */
  lemma FillSlot(b: string, p: string, a: string, rep: string)
    requires |p| > 0 && p[0] !in b
    ensures ReplaceFirstLiteral(b + p + a, p, rep) == b + rep + a
  {
    FirstOccurrenceAfter(b, p, a);
    var s := b + p + a;
    assert s[..|b|] == b;
    assert s[|b| + |p|..] == a;
  }

  /** The replacement `$&` puts the matched text back: replacing a pattern by it
      leaves the pattern in place. */
  lemma DollarAmpersandKeepsPattern(b: string, p: string, a: string)
    requires |p| > 0 && p[0] !in b
    ensures ReplaceFirst(b + p + a, p, "$&") == b + p + a
  {
    FirstOccurrenceAfter(b, p, a);
    var s := b + p + a;
    assert s[..|b|] == b;
    assert s[|b| + |p|..] == a;
    assert Substitution("$&", p, b, a) == p + Substitution([], p, b, a);
  }

  // ---------------------------------------------------------------------------
  // Character-wise rewriting

  /** `s.replace(/c/g, d)` for a single character `c`. */
  function ReplaceEvery(s: string, c: char, d: char): (r: string)
    ensures |r| == |s|
    ensures c != d ==> c !in r
    ensures forall i | 0 <= i < |s| && s[i] != c :: r[i] == s[i]
    ensures forall i | 0 <= i < |s| && s[i] == c :: r[i] == d
  {
    seq(|s|, i requires 0 <= i < |s| => if s[i] == c then d else s[i])
  }

  lemma ReplaceEveryAbsent(s: string, c: char, d: char)
    requires c !in s
    ensures ReplaceEvery(s, c, d) == s
  {
  }

  lemma ReplaceEveryIdempotent(s: string, c: char, d: char)
    ensures ReplaceEvery(ReplaceEvery(s, c, d), c, d) == ReplaceEvery(s, c, d)
  {
  }

  predicate IsLowerAscii(c: char) {
    'a' <= c <= 'z'
  }

  /** `toUpperCase` restricted to ASCII letters. */
  function UpperAscii(s: string): (r: string)
    ensures |r| == |s|
    ensures forall i | 0 <= i < |r| :: !IsLowerAscii(r[i])
    ensures forall i | 0 <= i < |s| && !IsLowerAscii(s[i]) :: r[i] == s[i]
    ensures forall i | 0 <= i < |s| && IsLowerAscii(s[i]) :: r[i] as int == s[i] as int - 32
  {
    seq(|s|, i requires 0 <= i < |s| =>
      if IsLowerAscii(s[i]) then (s[i] as int - 32) as char else s[i])
  }

  // ---------------------------------------------------------------------------
  // s.replace(/\s+/g, sep)

  /** Every maximal run of whitespace in `s` replaced by the single character `sep`:
      a whitespace character is dropped when the next one is whitespace too, and the
      last one of its run becomes `sep`. */
  function ReplaceWhitespaceRuns(s: string, sep: char): (r: string)
    requires !IsWhitespace(sep)
    ensures HasNoWhitespace(r)
    ensures |r| <= |s|
    decreases |s|
  {
    if s == [] then []
    else if !IsWhitespace(s[0]) then [s[0]] + ReplaceWhitespaceRuns(s[1..], sep)
    else if |s| > 1 && IsWhitespace(s[1]) then ReplaceWhitespaceRuns(s[1..], sep)
    else [sep] + ReplaceWhitespaceRuns(s[1..], sep)
  }

  lemma {:induction false} ReplaceWhitespaceRunsIdentity(s: string, sep: char)
    requires !IsWhitespace(sep) && HasNoWhitespace(s)
    ensures ReplaceWhitespaceRuns(s, sep) == s
    decreases |s|
  {
    if s != [] {
      assert !IsWhitespace(s[0]);
      ReplaceWhitespaceRunsIdentity(s[1..], sep);
      assert s == [s[0]] + s[1..];
    }
  }

  /** Runs are replaced independently on either side of a non-whitespace boundary. */
  lemma {:induction false} ReplaceWhitespaceRunsAppend(x: string, y: string, sep: char)
    requires !IsWhitespace(sep)
    requires x == [] || !IsWhitespace(x[|x| - 1])
    ensures ReplaceWhitespaceRuns(x + y, sep) == ReplaceWhitespaceRuns(x, sep) + ReplaceWhitespaceRuns(y, sep)
    decreases |x|
  {
    if x == [] {
      assert x + y == y;
    } else {
      var s := x + y;
      assert s[0] == x[0];
      assert s[1..] == x[1..] + y;
      if |x| > 1 {
        assert s[1] == x[1];
      }
      ReplaceWhitespaceRunsAppend(x[1..], y, sep);
    }
  }

  /** A whitespace run followed by a non-whitespace character (or by nothing) becomes
      exactly one `sep`. */
  lemma {:induction false} ReplaceWhitespaceRunsOfBlankPrefix(w: string, y: string, sep: char)
    requires !IsWhitespace(sep)
    requires w != [] && IsBlank(w)
    requires y == [] || !IsWhitespace(y[0])
    ensures ReplaceWhitespaceRuns(w + y, sep) == [sep] + ReplaceWhitespaceRuns(y, sep)
    decreases |w|
  {
    var s := w + y;
    assert s[0] == w[0];
    assert s[1..] == w[1..] + y;
    if |w| > 1 {
      assert s[1] == w[1];
      ReplaceWhitespaceRunsOfBlankPrefix(w[1..], y, sep);
    } else {
      assert w[1..] + y == y;
    }
  }

  /** One maximal run of whitespace, between two pieces that do not touch it with
      whitespace of their own, becomes exactly one `sep`. */
  lemma ReplaceWhitespaceRunsJoin(x: string, w: string, y: string, sep: char)
    requires !IsWhitespace(sep)
    requires x == [] || !IsWhitespace(x[|x| - 1])
    requires w != [] && IsBlank(w)
    requires y == [] || !IsWhitespace(y[0])
    ensures ReplaceWhitespaceRuns(x + w + y, sep)
         == ReplaceWhitespaceRuns(x, sep) + [sep] + ReplaceWhitespaceRuns(y, sep)
  {
    ConcatAssoc(x, w, y);
    ReplaceWhitespaceRunsAppend(x, w + y, sep);
    ReplaceWhitespaceRunsOfBlankPrefix(w, y, sep);
    ConcatAssoc(ReplaceWhitespaceRuns(x, sep), [sep], ReplaceWhitespaceRuns(y, sep));
  }

  lemma ConcatAssoc(a: string, b: string, c: string)
    ensures a + b + c == a + (b + c)
  {
  }

  // ---------------------------------------------------------------------------
  // Number-to-string conversion for integers

  predicate IsDigit(c: char) {
    '0' <= c <= '9'
  }

  function DigitChar(d: int): (c: char)
    requires 0 <= d < 10
    ensures IsDigit(c) && c as int - '0' as int == d
  {
    ('0' as int + d) as char
  }

  /** Decimal notation of a natural number, as `String(n)` writes it. */
  function NatToDecimal(n: nat): (r: string)
    ensures |r| >= 1
    ensures forall i | 0 <= i < |r| :: IsDigit(r[i])
    ensures r[0] == '0' <==> n == 0
    decreases n
  {
    if n < 10 then [DigitChar(n)] else NatToDecimal(n / 10) + [DigitChar(n % 10)]
  }

  /** Decimal notation of an integer, with a leading `-` when negative. */
  function IntToDecimal(n: int): (r: string)
    ensures |r| >= 1
    ensures r[0] == '-' <==> n < 0
    ensures n >= 0 ==> r == NatToDecimal(n)
    ensures n < 0 ==> r == "-" + NatToDecimal(-n)
  {
    if n < 0 then "-" + NatToDecimal(-n) else NatToDecimal(n)
  }

  function DigitValue(c: char): nat
    requires IsDigit(c)
  {
    c as int - '0' as int
  }

  /** The value of a string of decimal digits. */
  function DecimalValue(s: string): nat
    requires forall i | 0 <= i < |s| :: IsDigit(s[i])
  {
    if s == [] then 0 else 10 * DecimalValue(s[..|s| - 1]) + DigitValue(s[|s| - 1])
  }

  lemma {:induction false} DecimalRoundTrip(n: nat)
    ensures DecimalValue(NatToDecimal(n)) == n
    decreases n
  {
    if n >= 10 {
      var r := NatToDecimal(n);
      assert r[..|r| - 1] == NatToDecimal(n / 10);
      DecimalRoundTrip(n / 10);
    }
  }
}
