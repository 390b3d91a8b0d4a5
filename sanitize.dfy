/** The noise sanitiser run on every document before field extraction
    (filter_contract.py:164-165): first `re.sub(r"\b\d{5,}\b", "", text)`,
    then `re.sub(r"\S+@\S+", "", ...)`.

    Each `re.sub` is modelled as the regex engine's scan: at a position it
    either matches (the match is dropped and the scan resumes after it) or
    keeps one character and moves on.  Beside each scan stands a
    declarative reference: the characters that lie inside a token of the
    deleted class are dropped, every other character is kept in place and
    in order.  The lemmas prove the scan equal to its reference. */
module NoiseFilter {
  import opened Text

  // ---------------------------------------------------------------------
  // Pass 1: `\b\d{5,}\b`
  // ---------------------------------------------------------------------

  /** End of the run of digits that starts at `p`. */
  function DigitRunEnd(s: string, p: nat): (e: nat)
    requires p <= |s|
    ensures p <= e <= |s|
    ensures forall i | p <= i < e :: IsDigit(s[i])
    ensures e == |s| || !IsDigit(s[e])
    decreases |s| - p
  {
    if p < |s| && IsDigit(s[p]) then DigitRunEnd(s, p + 1) else p
  }

  /** `\b\d{5,}\b` matches at `p`.  `\b` holds at `p` when the character
      before is not a word character, and `\d{5,}` is greedy; backing off
      never helps because a shorter run ends before a digit, where `\b`
      fails.  So the match is the whole digit run or nothing. */
  predicate LongNumberAt(s: string, p: nat)
    requires p <= |s|
  {
    var e := DigitRunEnd(s, p);
    e - p >= 5 && (p == 0 || !IsWordChar(s[p - 1])) && (e == |s| || !IsWordChar(s[e]))
  }

  /** The scan of the first `re.sub` from position `p`; boundaries are
      judged on the whole input, as the regex engine does. */
  function DeleteLongNumbers(s: string, p: nat): (r: string)
    requires p <= |s|
    ensures |r| <= |s| - p
    decreases |s| - p
  {
    if p == |s| then []
    else if LongNumberAt(s, p) then DeleteLongNumbers(s, DigitRunEnd(s, p))
    else [s[p]] + DeleteLongNumbers(s, p + 1)
  }

  /** `s[a..b]` is a standalone number of five or more digits: all digits,
      with no word character touching it on either side. */
  predicate LongNumber(s: string, a: nat, b: nat)
    requires a <= b <= |s|
  {
    b - a >= 5
    && (forall i | a <= i < b :: IsDigit(s[i]))
    && (a == 0 || !IsWordChar(s[a - 1]))
    && (b == |s| || !IsWordChar(s[b]))
  }

  /** Character `i` belongs to a standalone long number. */
  predicate InLongNumber(s: string, i: nat) {
    exists a, b | 0 <= a <= i < b <= |s| :: LongNumber(s, a, b)
  }

  /** Reference: the characters from `p` on that lie in no long number. */
  function KeptByNumbers(s: string, p: nat): string
    requires p <= |s|
    decreases |s| - p
  {
    if p == |s| then []
    else (if InLongNumber(s, p) then [] else [s[p]]) + KeptByNumbers(s, p + 1)
  }

  lemma {:induction false} KeptByNumbersSkips(s: string, p: nat, e: nat)
    requires p <= e <= |s|
    requires forall i | p <= i < e :: InLongNumber(s, i)
    ensures KeptByNumbers(s, p) == KeptByNumbers(s, e)
    decreases e - p
  {
    if p < e {
      KeptByNumbersSkips(s, p + 1, e);
    }
  }

  lemma {:induction false} DigitRunEndExact(s: string, a: nat, b: nat)
    requires a <= b <= |s|
    requires forall i | a <= i < b :: IsDigit(s[i])
    requires b == |s| || !IsDigit(s[b])
    ensures DigitRunEnd(s, a) == b
    decreases b - a
  {
    if a < b {
      DigitRunEndExact(s, a + 1, b);
    }
  }

  /** A long number found declaratively is the match the scan finds at
      its first digit. */
  lemma LongNumberIsMatch(s: string, a: nat, b: nat)
    requires a <= b <= |s| && LongNumber(s, a, b)
    ensures DigitRunEnd(s, a) == b && LongNumberAt(s, a)
  {
    DigitRunEndExact(s, a, b);
  }

  /** Standing on a long number right after a non-word character means
      standing on its first digit. */
  lemma AtNumberStart(s: string, p: nat)
    requires p <= |s|
    ensures InLongNumber(s, p) && (p == 0 || !IsWordChar(s[p - 1])) ==> LongNumberAt(s, p)
  {
    if InLongNumber(s, p) && (p == 0 || !IsWordChar(s[p - 1])) {
      var a, b :| 0 <= a <= p < b <= |s| && LongNumber(s, a, b);
      assert a == p;
      LongNumberIsMatch(s, a, b);
    }
  }

  /** Entering a long number from outside crosses its left boundary. */
  lemma EnterNumber(s: string, i: nat)
    requires 0 < i <= |s|
    ensures InLongNumber(s, i) && !InLongNumber(s, i - 1) ==> !IsWordChar(s[i - 1])
  {
    if InLongNumber(s, i) && !InLongNumber(s, i - 1) {
      var a, b :| 0 <= a <= i < b <= |s| && LongNumber(s, a, b);
      assert a == i;
    }
  }

  lemma OutsideNumbers(s: string, e: nat)
    requires e < |s| && !IsDigit(s[e])
    ensures !InLongNumber(s, e)
  {
  }

  /** A match of the scan covers a whole long number: the reference drops
      all of it, and the scan resumes outside any long number. */
  lemma NumberMatchSkips(s: string, p: nat)
    requires p < |s| && LongNumberAt(s, p)
    ensures KeptByNumbers(s, p) == KeptByNumbers(s, DigitRunEnd(s, p))
    ensures !InLongNumber(s, DigitRunEnd(s, p))
  {
    var e := DigitRunEnd(s, p);
    assert LongNumber(s, p, e);
    forall i | p <= i < e ensures InLongNumber(s, i) {
      assert LongNumber(s, p, e);
    }
    KeptByNumbersSkips(s, p, e);
    if e < |s| {
      OutsideNumbers(s, e);
    }
  }

  /** Where the scan finds no match it stands outside every long number,
      so the next position again meets the condition. */
  lemma NumberMissSteps(s: string, p: nat)
    requires p < |s| && !LongNumberAt(s, p)
    requires InLongNumber(s, p) ==> p == 0 || !IsWordChar(s[p - 1])
    ensures !InLongNumber(s, p)
    ensures InLongNumber(s, p + 1) ==> !IsWordChar(s[p])
  {
    AtNumberStart(s, p);
    EnterNumber(s, p + 1);
  }

  /** The scan, started where no long number is entered half-way, drops
      exactly the characters of long numbers. */
  lemma {:induction false} DeleteLongNumbersSpec(s: string, p: nat)
    requires p <= |s|
    requires InLongNumber(s, p) ==> p == 0 || !IsWordChar(s[p - 1])
    ensures DeleteLongNumbers(s, p) == KeptByNumbers(s, p)
    decreases |s| - p
  {
    if p == |s| {
    } else if LongNumberAt(s, p) {
      NumberMatchSkips(s, p);
      DeleteLongNumbersSpec(s, DigitRunEnd(s, p));
    } else {
      NumberMissSteps(s, p);
      DeleteLongNumbersSpec(s, p + 1);
    }
  }

  /** The first `re.sub`. */
  function RemoveLongNumbers(s: string): (r: string)
    ensures |r| <= |s|
  {
    DeleteLongNumbers(s, 0)
  }

  /** The first pass deletes exactly the standalone runs of five or more
      digits and keeps every other character, in order. */
  lemma RemoveLongNumbersSpec(s: string)
    ensures RemoveLongNumbers(s) == KeptByNumbers(s, 0)
  {
    DeleteLongNumbersSpec(s, 0);
  }

  // ---------------------------------------------------------------------
  // Pass 2: `\S+@\S+`
  // ---------------------------------------------------------------------

  /** End of the run of non-space characters that starts at `p`. */
  function TokenEnd(s: string, p: nat): (e: nat)
    requires p <= |s|
    ensures p <= e <= |s|
    ensures forall i | p <= i < e :: !IsSpace(s[i])
    ensures e == |s| || IsSpace(s[e])
    decreases |s| - p
  {
    if p < |s| && !IsSpace(s[p]) then TokenEnd(s, p + 1) else p
  }

  /** Start of the run of non-space characters that ends at `p`. */
  function TokenStart(s: string, p: nat): (a: nat)
    requires p <= |s|
    ensures a <= p
    ensures forall i | a <= i < p :: !IsSpace(s[i])
    ensures a == 0 || IsSpace(s[a - 1])
  {
    if p > 0 && !IsSpace(s[p - 1]) then TokenStart(s, p - 1) else p
  }

  /** `\S+@\S+` matches at `p`.  The first `\S+` backs off to an `@` that
      has at least one non-space character after it, and the second `\S+`
      then runs to the end of the token, so the match is the rest of the
      token from `p` whenever an `@` lies strictly inside it. */
  predicate EmailAt(s: string, p: nat)
    requires p <= |s|
  {
    var e := TokenEnd(s, p);
    p + 2 <= e && '@' in s[p + 1..e - 1]
  }

  /** The scan of the second `re.sub` from position `p`. */
  function DeleteEmails(s: string, p: nat): (r: string)
    requires p <= |s|
    ensures |r| <= |s| - p
    decreases |s| - p
  {
    if p == |s| then []
    else if EmailAt(s, p) then DeleteEmails(s, TokenEnd(s, p))
    else [s[p]] + DeleteEmails(s, p + 1)
  }

  /** `s[a..b]` is a whole whitespace-delimited token with an `@` that is
      neither its first nor its last character. */
  predicate EmailToken(s: string, a: nat, b: nat)
    requires a <= b <= |s|
  {
    a + 2 <= b
    && (forall i | a <= i < b :: !IsSpace(s[i]))
    && (a == 0 || IsSpace(s[a - 1]))
    && (b == |s| || IsSpace(s[b]))
    && '@' in s[a + 1..b - 1]
  }

  /** Character `i` belongs to such a token. */
  predicate InEmail(s: string, i: nat) {
    exists a, b | 0 <= a <= i < b <= |s| :: EmailToken(s, a, b)
  }

  /** Reference: the characters from `p` on that lie in no such token. */
  function KeptByEmails(s: string, p: nat): string
    requires p <= |s|
    decreases |s| - p
  {
    if p == |s| then []
    else (if InEmail(s, p) then [] else [s[p]]) + KeptByEmails(s, p + 1)
  }

  lemma {:induction false} KeptByEmailsSkips(s: string, p: nat, e: nat)
    requires p <= e <= |s|
    requires forall i | p <= i < e :: InEmail(s, i)
    ensures KeptByEmails(s, p) == KeptByEmails(s, e)
    decreases e - p
  {
    if p < e {
      KeptByEmailsSkips(s, p + 1, e);
    }
  }

  lemma InteriorWidens(s: string, a: nat, p: nat, e: nat)
    requires a <= p && p + 2 <= e <= |s|
    requires '@' in s[p + 1..e - 1]
    ensures '@' in s[a + 1..e - 1]
  {
    var j :| 0 <= j < |s[p + 1..e - 1]| && s[p + 1..e - 1][j] == '@';
    assert s[a + 1..e - 1][p - a + j] == '@';
  }

  lemma {:induction false} TokenEndExact(s: string, a: nat, b: nat)
    requires a <= b <= |s|
    requires forall i | a <= i < b :: !IsSpace(s[i])
    requires b == |s| || IsSpace(s[b])
    ensures TokenEnd(s, a) == b
    decreases b - a
  {
    if a < b {
      TokenEndExact(s, a + 1, b);
    }
  }

  /** A match of the scan lies in an email token, which begins at `p`
      when the scan stands at a token boundary. */
  lemma MatchIsEmailToken(s: string, p: nat)
    requires p <= |s| && EmailAt(s, p)
    ensures InEmail(s, p)
    ensures p == 0 || IsSpace(s[p - 1]) ==> EmailToken(s, p, TokenEnd(s, p))
  {
    var e := TokenEnd(s, p);
    var a := TokenStart(s, p);
    InteriorWidens(s, a, p, e);
    assert EmailToken(s, a, e);
  }

  /** Standing on an email token at a token boundary means the scan
      matches there. */
  lemma AtEmailStart(s: string, p: nat)
    requires p <= |s|
    ensures InEmail(s, p) && (p == 0 || IsSpace(s[p - 1])) ==> EmailAt(s, p)
  {
    if InEmail(s, p) && (p == 0 || IsSpace(s[p - 1])) {
      var a, b :| 0 <= a <= p < b <= |s| && EmailToken(s, a, b);
      assert a == p;
      TokenEndExact(s, a, b);
    }
  }

  /** Entering an email token from outside crosses whitespace. */
  lemma EnterEmail(s: string, i: nat)
    requires 0 < i <= |s|
    ensures InEmail(s, i) && !InEmail(s, i - 1) ==> IsSpace(s[i - 1])
  {
    if InEmail(s, i) && !InEmail(s, i - 1) {
      var a, b :| 0 <= a <= i < b <= |s| && EmailToken(s, a, b);
      assert a == i;
    }
  }

  lemma OutsideEmails(s: string, e: nat)
    requires e < |s| && IsSpace(s[e])
    ensures !InEmail(s, e)
  {
  }

  /** A match of the scan at a token boundary covers a whole email token:
      the reference drops all of it, and the scan resumes outside any
      token. */
  lemma EmailMatchSkips(s: string, p: nat)
    requires p < |s| && EmailAt(s, p)
    requires InEmail(s, p) ==> p == 0 || IsSpace(s[p - 1])
    ensures KeptByEmails(s, p) == KeptByEmails(s, TokenEnd(s, p))
    ensures InEmail(s, TokenEnd(s, p)) ==> IsSpace(s[TokenEnd(s, p) - 1])
  {
    var e := TokenEnd(s, p);
    MatchIsEmailToken(s, p);
    forall i | p <= i < e ensures InEmail(s, i) {
      assert EmailToken(s, p, e);
    }
    KeptByEmailsSkips(s, p, e);
    if e < |s| {
      OutsideEmails(s, e);
    }
  }

  /** Where the scan finds no match at a token boundary it stands outside
      every email token, so the next position again meets the condition. */
  lemma EmailMissSteps(s: string, p: nat)
    requires p < |s| && !EmailAt(s, p)
    requires InEmail(s, p) ==> p == 0 || IsSpace(s[p - 1])
    ensures !InEmail(s, p)
    ensures InEmail(s, p + 1) ==> IsSpace(s[p])
  {
    AtEmailStart(s, p);
    EnterEmail(s, p + 1);
  }

  /** The scan, started at a token boundary whenever it stands in an email
      token, drops exactly the characters of those tokens. */
  lemma {:induction false} DeleteEmailsSpec(s: string, p: nat)
    requires p <= |s|
    requires InEmail(s, p) ==> p == 0 || IsSpace(s[p - 1])
    ensures DeleteEmails(s, p) == KeptByEmails(s, p)
    decreases |s| - p
  {
    if p == |s| {
    } else if EmailAt(s, p) {
      var e := TokenEnd(s, p);
      EmailMatchSkips(s, p);
      DeleteEmailsSpec(s, e);
    } else {
      EmailMissSteps(s, p);
      DeleteEmailsSpec(s, p + 1);
    }
  }

  /** The second `re.sub`. */
  function RemoveEmails(s: string): (r: string)
    ensures |r| <= |s|
  {
    DeleteEmails(s, 0)
  }

  /** The second pass deletes exactly the whitespace-delimited tokens with
      an interior `@` and keeps every other character, in order. */
  lemma RemoveEmailsSpec(s: string)
    ensures RemoveEmails(s) == KeptByEmails(s, 0)
  {
    DeleteEmailsSpec(s, 0);
  }

  // ---------------------------------------------------------------------
  // The two passes in the order the driver applies them
  // ---------------------------------------------------------------------

  /** `text_cleaned` of the driver loop: long numbers first, then emails.
      The result is never longer than the input. */
  function Sanitize(text: string): (r: string)
    ensures |r| <= |text|
  {
    RemoveEmails(RemoveLongNumbers(text))
  }

  /** The sanitiser keeps, in order, the characters that survive the
      deletion of long numbers and then of email tokens. */
  lemma SanitizeSpec(text: string)
    ensures Sanitize(text) == KeptByEmails(KeptByNumbers(text, 0), 0)
  {
    RemoveLongNumbersSpec(text);
    RemoveEmailsSpec(RemoveLongNumbers(text));
  }

  // ---------------------------------------------------------------------
  // What the sanitiser leaves alone
  // ---------------------------------------------------------------------

  lemma {:induction false} KeptByNumbersAll(s: string, p: nat)
    requires p <= |s|
    requires forall i | p <= i < |s| :: !InLongNumber(s, i)
    ensures KeptByNumbers(s, p) == s[p..]
    decreases |s| - p
  {
    if p < |s| {
      KeptByNumbersAll(s, p + 1);
      assert s[p..] == [s[p]] + s[p + 1..];
    }
  }

  lemma {:induction false} KeptByEmailsAll(s: string, p: nat)
    requires p <= |s|
    requires forall i | p <= i < |s| :: !InEmail(s, i)
    ensures KeptByEmails(s, p) == s[p..]
    decreases |s| - p
  {
    if p < |s| {
      KeptByEmailsAll(s, p + 1);
      assert s[p..] == [s[p]] + s[p + 1..];
    }
  }

  /** A text with no standalone long number and no email token comes
      through unchanged. */
  lemma NothingToDelete(s: string)
    requires forall i | 0 <= i < |s| :: !InLongNumber(s, i) && !InEmail(s, i)
    ensures Sanitize(s) == s
  {
    SanitizeSpec(s);
    KeptByNumbersAll(s, 0);
    KeptByEmailsAll(s, 0);
  }

  lemma SliceKeepsOut(s: string, i: nat, j: nat, c: char)
    requires i <= j <= |s| && c !in s
    ensures c !in s[i..j]
  {
    forall k | 0 <= k < j - i ensures s[i..j][k] != c {
      assert s[i..j][k] == s[i + k];
    }
  }

  /** In particular a text with no `@` and no run of five digits is left
      as it is. */
  lemma NoDigitRunNoAt(s: string)
    requires '@' !in s
    requires forall i | 0 <= i <= |s| - 5 :: !IsDigit(s[i]) || !IsDigit(s[i + 1]) || !IsDigit(s[i + 2])
                                               || !IsDigit(s[i + 3]) || !IsDigit(s[i + 4])
    ensures Sanitize(s) == s
  {
    forall a: nat, b: nat | a <= b <= |s| ensures !LongNumber(s, a, b) {
      if b - a >= 5 {
        assert !IsDigit(s[a]) || !IsDigit(s[a + 1]) || !IsDigit(s[a + 2]) || !IsDigit(s[a + 3]) || !IsDigit(s[a + 4]);
      }
    }
    forall a: nat, b: nat | a <= b <= |s| ensures !EmailToken(s, a, b) {
      if a + 2 <= b {
        SliceKeepsOut(s, a + 1, b - 1, '@');
      }
    }
    NothingToDelete(s);
  }

  // ---------------------------------------------------------------------
  // The order of the two passes matters
  // ---------------------------------------------------------------------

  lemma NumberPassOnOrderExample()
    ensures RemoveLongNumbers("a 12345@b") == "a @b"
  {
    var s := "a 12345@b";
    assert DigitRunEnd(s, 2) == 7;
    assert LongNumberAt(s, 2);
    assert DeleteLongNumbers(s, 2) == DeleteLongNumbers(s, 7);
  }

  lemma EmailPassKeepsExample()
    ensures RemoveEmails("a @b") == "a @b"
  {
    var s := "a @b";
    assert TokenEnd(s, 2) == 4 && !EmailAt(s, 2);
    assert TokenEnd(s, 3) == 4 && !EmailAt(s, 3);
  }

  lemma EmailPassOnOrderExample()
    ensures RemoveEmails("a 12345@b") == "a "
  {
    var s := "a 12345@b";
    assert TokenEnd(s, 2) == 9;
    assert EmailAt(s, 2);
  }

  lemma NumbersFirstExample()
    ensures Sanitize("a 12345@b") == "a @b"
  {
    NumberPassOnOrderExample();
    EmailPassKeepsExample();
  }

  lemma EmailsFirstExample()
    ensures RemoveLongNumbers(RemoveEmails("a 12345@b")) == "a "
  {
    EmailPassOnOrderExample();
    assert RemoveLongNumbers("a ") == "a ";
  }

  /** On `a 12345@b` the number pass removes `12345` and leaves `@b`, which
      has no character before its `@` and so is no email; run the other way
      round, the email pass removes the whole token `12345@b`. */
  lemma OrderMatters()
    ensures Sanitize("a 12345@b") != RemoveLongNumbers(RemoveEmails("a 12345@b"))
  {
    NumbersFirstExample();
    EmailsFirstExample();
    assert |"a @b"| != |"a "|;
  }

  // ---------------------------------------------------------------------
  // Example: a phone number and an email address
  // ---------------------------------------------------------------------

  /** The scan keeps a stretch without digits as it is. */
  lemma {:induction false} NoDigitsKept(s: string, p: nat)
    requires p <= |s|
    requires forall i | p <= i < |s| :: !IsDigit(s[i])
    ensures DeleteLongNumbers(s, p) == s[p..]
    decreases |s| - p
  {
    if p < |s| {
      NoDigitsKept(s, p + 1);
      assert s[p..] == [s[p]] + s[p + 1..];
    }
  }

  lemma PhoneNumberMatch(s: string)
    requires s == "a 1234567 b@c d"
    ensures !LongNumberAt(s, 0) && !LongNumberAt(s, 1)
    ensures DigitRunEnd(s, 2) == 9 && LongNumberAt(s, 2)
  {
    DigitRunEndExact(s, 2, 9);
    assert DigitRunEnd(s, 0) == 0 && DigitRunEnd(s, 1) == 1;
  }

  lemma PhoneTail(s: string)
    requires s == "a 1234567 b@c d"
    ensures DeleteLongNumbers(s, 9) == s[9..]
  {
    forall i | 9 <= i < |s| ensures !IsDigit(s[i]) {
    }
    NoDigitsKept(s, 9);
  }

  lemma PhoneRemovedExample()
    ensures RemoveLongNumbers("a 1234567 b@c d") == "a  b@c d"
  {
    var s := "a 1234567 b@c d";
    PhoneNumberMatch(s);
    PhoneTail(s);
  }

  lemma EmailRemovedExample()
    ensures RemoveEmails("a  b@c d") == "a   d"
  {
    var s := "a  b@c d";
    assert TokenEnd(s, 3) == 6;
    assert EmailAt(s, 3);
  }

  /** A seven-digit number and an email address are removed; the words and
      spaces around them stay. */
  lemma SanitizeExample()
    ensures Sanitize("a 1234567 b@c d") == "a   d"
  {
    PhoneRemovedExample();
    EmailRemovedExample();
  }
}
