/** The part of ECMAScript regular expressions the form's two patterns use:
    anchors, character classes repeated between bounds, concatenation and
    lookaheads, with the yes-or-no answer of `RegExp.prototype.test`. Each
    pattern is written out as a term and proved to accept exactly the texts
    an explicit predicate describes. */
module Regex {
  import opened Wrappers

  /** A character class. */
  datatype CharClass =
    | Chars(cs: set<char>)
    | Range(lo: char, hi: char)
    | Union(a: CharClass, b: CharClass)
    | NotLineTerminator  // `.` without the `s` flag

  predicate IsLineTerminator(c: char) {
    c == '\n' || c == '\r' || c == '\U{2028}' || c == '\U{2029}'
  }

  predicate InClass(c: char, k: CharClass) {
    match k
    case Chars(cs) => c in cs
    case Range(lo, hi) => lo <= c <= hi
    case Union(a, b) => InClass(c, a) || InClass(c, b)
    case NotLineTerminator => !IsLineTerminator(c)
  }

  datatype Regex =
    | StartAnchor                                        // `^` without the `m` flag
    | EndAnchor                                          // `$` without the `m` flag
    | Repeat(k: CharClass, min: nat, max: Option<nat>)   // `[k]{min,max}`; None is unbounded
    | Concat(a: Regex, b: Regex)
    | Lookahead(r: Regex)                                // `(?=r)`
    | NegativeLookahead(r: Regex)                        // `(?!r)`

  /** `r` can match exactly the characters `s[i..j]`. */
  predicate MatchesAt(r: Regex, s: string, i: nat, j: nat)
    decreases r
  {
    i <= j <= |s| &&
    match r
    case StartAnchor => i == 0 && j == 0
    case EndAnchor => i == |s| && j == |s|
    case Repeat(k, lo, hi) =>
      lo <= j - i && (hi.None? || j - i <= hi.value) && forall p :: i <= p < j ==> InClass(s[p], k)
    case Concat(a, b) => exists m :: i <= m <= j && MatchesAt(a, s, i, m) && MatchesAt(b, s, m, j)
    case Lookahead(x) => j == i && exists e :: i <= e <= |s| && MatchesAt(x, s, i, e)
    case NegativeLookahead(x) => j == i && !exists e :: i <= e <= |s| && MatchesAt(x, s, i, e)
  }

  /** `RegExp.prototype.test`: a match starting at some position. Without
      back-references, whether a backtracking search succeeds depends only
      on which spans can match. */
  predicate Test(r: Regex, s: string) {
    exists i, j :: 0 <= i <= j <= |s| && MatchesAt(r, s, i, j)
  }

  // ---------------------------------------------------------------------
  // The phone pattern `^[+]{1}[0-9]{10,15}$`

  const Digit := Range('0', '9')

  const PhoneDigits := Concat(Repeat(Digit, 10, Some(15)), EndAnchor)
  const PhoneBody := Concat(Repeat(Chars({'+'}), 1, Some(1)), PhoneDigits)
  const PhonePattern := Concat(StartAnchor, PhoneBody)

  /** A '+' and then 10 to 15 ASCII digits, nothing else. */
  predicate IsPhoneNumber(s: string) {
    11 <= |s| <= 16 && s[0] == '+' && forall p :: 1 <= p < |s| ==> '0' <= s[p] <= '9'
  }

  /** A match of each part, side by side, is a match of their concatenation. */
  lemma ConcatIntro(a: Regex, b: Regex, s: string, i: nat, m: nat, j: nat)
    requires MatchesAt(a, s, i, m) && MatchesAt(b, s, m, j)
    ensures MatchesAt(Concat(a, b), s, i, j)
  {
  }

  /** A match of a concatenation splits into matches of its parts. */
  lemma ConcatElim(a: Regex, b: Regex, s: string, i: nat, j: nat) returns (m: nat)
    requires MatchesAt(Concat(a, b), s, i, j)
    ensures i <= m <= j && MatchesAt(a, s, i, m) && MatchesAt(b, s, m, j)
  {
    m :| i <= m <= j && MatchesAt(a, s, i, m) && MatchesAt(b, s, m, j);
  }

  /** The phone pattern accepts exactly the phone numbers. */
  lemma PhonePatternIff(s: string)
    ensures Test(PhonePattern, s) <==> IsPhoneNumber(s)
  {
    if IsPhoneNumber(s) {
      PhoneMatches(s);
    }
    if Test(PhonePattern, s) {
      var i, j :| 0 <= i <= j <= |s| && MatchesAt(PhonePattern, s, i, j);
      PhoneMatchIsPhoneNumber(s, i, j);
    }
  }

  lemma PhoneMatches(s: string)
    requires IsPhoneNumber(s)
    ensures MatchesAt(PhonePattern, s, 0, |s|)
  {
    assert MatchesAt(Repeat(Digit, 10, Some(15)), s, 1, |s|);
    assert MatchesAt(EndAnchor, s, |s|, |s|);
    ConcatIntro(Repeat(Digit, 10, Some(15)), EndAnchor, s, 1, |s|, |s|);
    assert s[0] in {'+'};
    assert MatchesAt(Repeat(Chars({'+'}), 1, Some(1)), s, 0, 1);
    ConcatIntro(Repeat(Chars({'+'}), 1, Some(1)), PhoneDigits, s, 0, 1, |s|);
    assert MatchesAt(StartAnchor, s, 0, 0);
    ConcatIntro(StartAnchor, PhoneBody, s, 0, 0, |s|);
  }

  lemma PhoneMatchIsPhoneNumber(s: string, i: nat, j: nat)
    requires MatchesAt(PhonePattern, s, i, j)
    ensures IsPhoneNumber(s)
  {
    var m1 := ConcatElim(StartAnchor, PhoneBody, s, i, j);
    var m2 := ConcatElim(Repeat(Chars({'+'}), 1, Some(1)), PhoneDigits, s, m1, j);
    var m3 := ConcatElim(Repeat(Digit, 10, Some(15)), EndAnchor, s, m2, j);
    assert m1 == 0 && m2 == 1 && m3 == |s|;
    assert s[0] in {'+'};
  }

  // ---------------------------------------------------------------------
  // The username pattern `^(?=.{5,24}$)(?!.*[-._]{2})[a-zA-Z0-9-._]+$`

  /** `-`, `.` and `_`; after the range `0-9` a `-` in a class is literal. */
  const Separator := Chars({'-', '.', '_'})
  const UsernameChar := Union(Range('a', 'z'), Union(Range('A', 'Z'), Union(Range('0', '9'), Separator)))

  const LengthCheck := Lookahead(Concat(Repeat(NotLineTerminator, 5, Some(24)), EndAnchor))
  const DoubleSeparator := Concat(Repeat(NotLineTerminator, 0, None), Repeat(Separator, 2, Some(2)))
  const UsernameRun := Concat(Repeat(UsernameChar, 1, None), EndAnchor)
  const UsernameTail := Concat(NegativeLookahead(DoubleSeparator), UsernameRun)
  const UsernameBody := Concat(LengthCheck, UsernameTail)
  const UsernamePattern := Concat(StartAnchor, UsernameBody)

  predicate IsUsernameChar(c: char) {
    'a' <= c <= 'z' || 'A' <= c <= 'Z' || '0' <= c <= '9' || c == '-' || c == '.' || c == '_'
  }

  predicate IsSeparator(c: char) {
    c == '-' || c == '.' || c == '_'
  }

  /** 5 to 24 letters, digits, '-', '.' or '_', no two of the last three side by side. */
  predicate IsUsername(s: string) {
    && 5 <= |s| <= 24
    && (forall p :: 0 <= p < |s| ==> IsUsernameChar(s[p]))
    && (forall p :: 0 <= p < |s| - 1 ==> !(IsSeparator(s[p]) && IsSeparator(s[p + 1])))
  }

  lemma ClassesAgree(c: char)
    ensures InClass(c, UsernameChar) <==> IsUsernameChar(c)
    ensures InClass(c, Separator) <==> IsSeparator(c)
    ensures IsUsernameChar(c) ==> InClass(c, NotLineTerminator)
  {
    assert InClass(c, Union(Range('0', '9'), Separator)) <==> '0' <= c <= '9' || IsSeparator(c);
    assert InClass(c, Union(Range('A', 'Z'), Union(Range('0', '9'), Separator)))
      <==> 'A' <= c <= 'Z' || '0' <= c <= '9' || IsSeparator(c);
  }

  lemma LookaheadIntro(x: Regex, s: string, i: nat, e: nat)
    requires i <= e <= |s| && MatchesAt(x, s, i, e)
    ensures MatchesAt(Lookahead(x), s, i, i)
  {
  }

  lemma LookaheadElim(x: Regex, s: string, i: nat, j: nat) returns (e: nat)
    requires MatchesAt(Lookahead(x), s, i, j)
    ensures j == i && i <= e <= |s| && MatchesAt(x, s, i, e)
  {
    e :| i <= e <= |s| && MatchesAt(x, s, i, e);
  }

  lemma NegativeLookaheadIntro(x: Regex, s: string, i: nat)
    requires i <= |s| && forall e :: i <= e <= |s| ==> !MatchesAt(x, s, i, e)
    ensures MatchesAt(NegativeLookahead(x), s, i, i)
  {
  }

  lemma NegativeLookaheadElim(x: Regex, s: string, i: nat, j: nat, e: nat)
    requires MatchesAt(NegativeLookahead(x), s, i, j) && i <= e <= |s|
    ensures j == i && !MatchesAt(x, s, i, e)
  {
  }

  /** From the start, `.*[-._]{2}` matches up to the end of two adjacent
      separators with no line terminator before them. */
  lemma DoubleSeparatorAt(s: string, p: nat)
    requires p + 2 <= |s| && IsSeparator(s[p]) && IsSeparator(s[p + 1])
    requires forall q :: 0 <= q < p ==> !IsLineTerminator(s[q])
    ensures MatchesAt(DoubleSeparator, s, 0, p + 2)
  {
    assert MatchesAt(Repeat(NotLineTerminator, 0, None), s, 0, p);
    assert MatchesAt(Repeat(Separator, 2, Some(2)), s, p, p + 2);
    ConcatIntro(Repeat(NotLineTerminator, 0, None), Repeat(Separator, 2, Some(2)), s, 0, p, p + 2);
  }

  /** Every match of `.*[-._]{2}` ends with two separators. */
  lemma DoubleSeparatorWitness(s: string, e: nat)
    requires MatchesAt(DoubleSeparator, s, 0, e)
    ensures 2 <= e && IsSeparator(s[e - 2]) && IsSeparator(s[e - 1])
  {
    var m := ConcatElim(Repeat(NotLineTerminator, 0, None), Repeat(Separator, 2, Some(2)), s, 0, e);
    assert InClass(s[m], Separator) && InClass(s[m + 1], Separator);
  }

  /** The username pattern accepts exactly the usernames. */
  lemma UsernamePatternIff(s: string)
    ensures Test(UsernamePattern, s) <==> IsUsername(s)
  {
    if IsUsername(s) {
      UsernameMatches(s);
    }
    if Test(UsernamePattern, s) {
      var i, j :| 0 <= i <= j <= |s| && MatchesAt(UsernamePattern, s, i, j);
      UsernameMatchIsUsername(s, i, j);
    }
  }

  lemma UsernameMatches(s: string)
    requires IsUsername(s)
    ensures MatchesAt(UsernamePattern, s, 0, |s|)
  {
    forall p | 0 <= p < |s| ensures InClass(s[p], UsernameChar) && InClass(s[p], NotLineTerminator) {
      ClassesAgree(s[p]);
    }
    var dots := Repeat(NotLineTerminator, 5, Some(24));
    assert MatchesAt(dots, s, 0, |s|);
    assert MatchesAt(EndAnchor, s, |s|, |s|);
    ConcatIntro(dots, EndAnchor, s, 0, |s|, |s|);
    LookaheadIntro(Concat(dots, EndAnchor), s, 0, |s|);
    assert MatchesAt(Repeat(UsernameChar, 1, None), s, 0, |s|);
    ConcatIntro(Repeat(UsernameChar, 1, None), EndAnchor, s, 0, |s|, |s|);
    forall e | 0 <= e <= |s| ensures !MatchesAt(DoubleSeparator, s, 0, e) {
      if MatchesAt(DoubleSeparator, s, 0, e) {
        DoubleSeparatorWitness(s, e);
        assert false;
      }
    }
    NegativeLookaheadIntro(DoubleSeparator, s, 0);
    ConcatIntro(NegativeLookahead(DoubleSeparator), UsernameRun, s, 0, 0, |s|);
    ConcatIntro(LengthCheck, UsernameTail, s, 0, 0, |s|);
    assert MatchesAt(StartAnchor, s, 0, 0);
    ConcatIntro(StartAnchor, UsernameBody, s, 0, 0, |s|);
  }

  lemma UsernameMatchIsUsername(s: string, i: nat, j: nat)
    requires MatchesAt(UsernamePattern, s, i, j)
    ensures IsUsername(s)
  {
    var m1 := ConcatElim(StartAnchor, UsernameBody, s, i, j);
    assert i == 0 && m1 == 0;
    var m2 := ConcatElim(LengthCheck, UsernameTail, s, 0, j);
    var dots := Repeat(NotLineTerminator, 5, Some(24));
    var e := LookaheadElim(Concat(dots, EndAnchor), s, 0, m2);
    var m3 := ConcatElim(dots, EndAnchor, s, 0, e);
    assert m3 == |s|;
    var m4 := ConcatElim(NegativeLookahead(DoubleSeparator), UsernameRun, s, m2, j);
    var m5 := ConcatElim(Repeat(UsernameChar, 1, None), EndAnchor, s, m4, j);
    NegativeLookaheadElim(DoubleSeparator, s, 0, m4, 0);
    assert m4 == 0 && m5 == |s|;
    UsernameCharsOf(s);
    forall p | 0 <= p < |s| - 1 ensures !(IsSeparator(s[p]) && IsSeparator(s[p + 1])) {
      if IsSeparator(s[p]) && IsSeparator(s[p + 1]) {
        DoubleSeparatorAt(s, p);
        assert false;
      }
    }
  }

  lemma UsernameCharsOf(s: string)
    requires MatchesAt(Repeat(UsernameChar, 1, None), s, 0, |s|)
    ensures forall p :: 0 <= p < |s| ==> IsUsernameChar(s[p]) && !IsLineTerminator(s[p])
  {
    forall p | 0 <= p < |s| ensures IsUsernameChar(s[p]) && !IsLineTerminator(s[p]) {
      ClassesAgree(s[p]);
    }
  }
}
