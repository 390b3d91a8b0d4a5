/** The vehicle-name locator `extract_vehicle_name`
    (filter_contract.py:40-76): the first clean line that holds a letter,
    joined with the next line when that one looks like a trim or variant. */
module Locator {
  import opened Wrappers
  import opened Text
  import opened LineSplit

  /** Lines that mention one of these (lower-cased) are contact, legal or
      company noise. */
  const NoiseKeywords: seq<string> :=
    ["vat", "contract", "consultancy", "tel", "phone",
     "email", "advert", "fee", "office", "company", "registered"]

  /** `sum(c.isdigit() for c in line)`. */
  function DigitCount(s: string): (n: nat)
    ensures n <= |s|
  {
    if s == [] then 0 else (if IsDigit(s[0]) then 1 else 0) + DigitCount(s[1..])
  }

  lemma {:induction false} DigitCountAppend(a: string, b: string)
    ensures DigitCount(a + b) == DigitCount(a) + DigitCount(b)
  {
    if a == [] {
      assert a + b == b;
    } else {
      DigitCountAppend(a[1..], b);
      assert (a + b)[1..] == a[1..] + b;
    }
  }

  /** `digits > len(line) * 0.4`, in integers: more than 40% digits. */
  predicate MostlyDigits(line: string) {
    5 * DigitCount(line) > 2 * |line|
  }

  /** `digits < len(line) * 0.4`: strictly fewer than 40% digits. */
  predicate FewDigits(line: string) {
    5 * DigitCount(line) < 2 * |line|
  }

  /** `re.search(r"[A-Za-z]", line)`. */
  predicate HasLetter(line: string) {
    exists i | 0 <= i < |line| :: IsLetter(line[i])
  }

  /** Some word of `ws` occurs in `s`. */
  predicate ContainsAny(s: string, ws: seq<string>) {
    exists k | 0 <= k < |ws| :: Contains(s, ws[k])
  }

  /** `any(keyword in line.lower() for keyword in [...])`. */
  predicate HasNoiseKeyword(line: string) {
    ContainsAny(Lower(line), NoiseKeywords)
  }

  /** A line with a character that is no digit has fewer digits than
      characters. */
  lemma {:induction false} NonDigitBelowLength(s: string, i: nat)
    requires i < |s| && !IsDigit(s[i])
    ensures DigitCount(s) < |s|
  {
    if i > 0 {
      NonDigitBelowLength(s[1..], i - 1);
    }
  }

  /** A line with a letter has fewer digits than characters. */
  lemma LetterBelowLength(s: string)
    requires HasLetter(s)
    ensures DigitCount(s) < |s|
  {
    var i :| 0 <= i < |s| && IsLetter(s[i]);
    NonDigitBelowLength(s, i);
  }

  /** A line the scan stops at: it passes the three skip tests and holds a
      letter.  Such a line is not empty, and since a letter is no digit it
      is not all digits. */
  predicate IsTitleLine(line: string)
    ensures IsTitleLine(line) ==> line != [] && DigitCount(line) < |line| && 5 * DigitCount(line) <= 2 * |line|
  {
    if HasLetter(line) then
      LetterBelowLength(line);
      !MostlyDigits(line) && '@' !in line && !HasNoiseKeyword(line)
    else false
  }

  /** A line that is merged after the title: a letter and under 40%
      digits.  It is not checked for `@` or noise keywords, but it always
      survives the digit test of the scan. */
  predicate IsVariantLine(line: string)
    ensures IsVariantLine(line) ==> line != [] && !MostlyDigits(line)
  {
    HasLetter(line) && FewDigits(line)
  }

  /** `k` is the first title line of `ls`. */
  predicate IsFirstTitle(ls: seq<string>, k: int) {
    0 <= k < |ls| && IsTitleLine(ls[k]) && forall j | 0 <= j < k :: !IsTitleLine(ls[j])
  }

  /** The index of the first title line at or after `i`. */
  function FirstTitleFrom(ls: seq<string>, i: nat): (r: Option<nat>)
    requires i <= |ls|
    ensures r.Some? ==> i <= r.value < |ls| && IsTitleLine(ls[r.value])
    ensures r.Some? ==> forall j | i <= j < r.value :: !IsTitleLine(ls[j])
    ensures r.None? ==> forall j | i <= j < |ls| :: !IsTitleLine(ls[j])
    decreases |ls| - i
  {
    if i == |ls| then None
    else if IsTitleLine(ls[i]) then Some(i)
    else FirstTitleFrom(ls, i + 1)
  }

  /** The name read at title line `k`: that line, followed by a space and
      the next line when the next line is a variant. */
  function NameAt(ls: seq<string>, k: nat): (name: string)
    requires k < |ls|
    ensures ls[k] <= name
    ensures name == ls[k] || (k + 1 < |ls| && name == ls[k] + " " + ls[k + 1])
  {
    if k + 1 < |ls| && IsVariantLine(ls[k + 1]) then
      var merged := ls[k] + " " + ls[k + 1];
      assert merged[..|ls[k]|] == ls[k];
      merged
    else ls[k]
  }

  /** Two first title lines are the same line. */
  lemma FirstTitleUnique(ls: seq<string>, k: int, k': int)
    requires IsFirstTitle(ls, k) && IsFirstTitle(ls, k')
    ensures k == k'
  {
  }

  /** The name found in a sequence of lines. */
  function NameIn(ls: seq<string>): (name: string)
    ensures (forall j | 0 <= j < |ls| :: !IsTitleLine(ls[j])) ==> name == NotAvailable
    ensures forall k | IsFirstTitle(ls, k) :: name == NameAt(ls, k)
  {
    match FirstTitleFrom(ls, 0)
    case None => NotAvailable
    case Some(k) =>
      assert IsFirstTitle(ls, k);
      assert forall k' | IsFirstTitle(ls, k') :: k' == k by {
        forall k' | IsFirstTitle(ls, k') ensures k' == k { FirstTitleUnique(ls, k, k'); }
      }
      NameAt(ls, k)
  }

  /** What `extract_vehicle_name(text)` returns. */
  function VehicleName(text: string): (name: string)
    ensures var ls := Lines(text);
      (forall j | 0 <= j < |ls| :: !IsTitleLine(ls[j])) ==> name == NotAvailable
    ensures var ls := Lines(text);
      forall k | IsFirstTitle(ls, k) :: name == NameAt(ls, k)
  {
    NameIn(Lines(text))
  }

  /** A line that is no title line leaves the first title line from the
      next index the same. */
  lemma SkipLine(ls: seq<string>, i: nat)
    requires i < |ls| && !IsTitleLine(ls[i])
    ensures FirstTitleFrom(ls, i + 1) == FirstTitleFrom(ls, i)
  {
  }

  /** A title line whose predecessors the scan has skipped gives the name. */
  lemma TakeLine(ls: seq<string>, i: nat)
    requires i < |ls| && IsTitleLine(ls[i])
    requires FirstTitleFrom(ls, i) == FirstTitleFrom(ls, 0)
    ensures NameIn(ls) == NameAt(ls, i)
  {
    assert FirstTitleFrom(ls, 0) == Some(i);
  }

  /** The locator as the source writes it: an indexed scan over the lines
      with `continue` on each skip test and an early return.  Every line
      skipped is no title line, so the first title line at or after `i` is
      the first title line of the text. */
  method ExtractVehicleName(text: string) returns (name: string)
    ensures name == VehicleName(text)
  {
    var lines := Lines(text);
    var i := 0;
    while i < |lines|
      invariant 0 <= i <= |lines|
      invariant FirstTitleFrom(lines, i) == FirstTitleFrom(lines, 0)
    {
      var line := lines[i];
      if MostlyDigits(line) {
        SkipLine(lines, i);
        i := i + 1;
        continue;
      }
      if '@' in line {
        SkipLine(lines, i);
        i := i + 1;
        continue;
      }
      if HasNoiseKeyword(line) {
        SkipLine(lines, i);
        i := i + 1;
        continue;
      }
      if HasLetter(line) {
        TakeLine(lines, i);
        if i + 1 < |lines| {
          var nextLine := lines[i + 1];
          if HasLetter(nextLine) && FewDigits(nextLine) {
            return line + " " + nextLine;
          }
        }
        return line;
      }
      SkipLine(lines, i);
      i := i + 1;
    }
    return NotAvailable;
  }

  // ---------------------------------------------------------------------
  // Properties of the locator
  // ---------------------------------------------------------------------

  /** The sentinel comes back when no line is a title line. */
  lemma NoTitleGivesNotAvailable(text: string)
    requires forall j | 0 <= j < |Lines(text)| :: !IsTitleLine(Lines(text)[j])
    ensures VehicleName(text) == NotAvailable
  {
  }

  /** When some line is a title line, the name is read at the first one. */
  lemma NameFromSomeTitle(text: string)
    requires exists j | 0 <= j < |Lines(text)| :: IsTitleLine(Lines(text)[j])
    ensures exists k | 0 <= k < |Lines(text)| ::
              IsFirstTitle(Lines(text), k) && VehicleName(text) == NameAt(Lines(text), k)
  {
    var ls := Lines(text);
    var r := FirstTitleFrom(ls, 0);
    assert r.Some?;
    assert IsFirstTitle(ls, r.value);
  }

  /** The name read at line `k` begins with that line; it is that line
      joined with the next exactly when the next line is a variant, and
      that line alone otherwise. */
  lemma NameAtShape(ls: seq<string>, k: nat)
    requires k < |ls|
    ensures ls[k] <= NameAt(ls, k)
    ensures (k + 1 < |ls| && NameAt(ls, k) == ls[k] + " " + ls[k + 1])
        <==> (k + 1 < |ls| && IsVariantLine(ls[k + 1]))
    ensures NameAt(ls, k) == ls[k] <==> !(k + 1 < |ls| && IsVariantLine(ls[k + 1]))
  {
    if k + 1 < |ls| {
      var merged := ls[k] + " " + ls[k + 1];
      assert |merged| > |ls[k]|;
      assert ls[k] <= merged;
    }
  }

  /** With a first title line `k`, the name is what NameAtShape says. */
  lemma NameFromFirstTitle(text: string, k: nat)
    requires IsFirstTitle(Lines(text), k)
    ensures var ls, name := Lines(text), VehicleName(text);
      && ls[k] <= name
      && ((k + 1 < |ls| && name == ls[k] + " " + ls[k + 1]) <==> (k + 1 < |ls| && IsVariantLine(ls[k + 1])))
      && (name == ls[k] <==> !(k + 1 < |ls| && IsVariantLine(ls[k + 1])))
  {
    var ls := Lines(text);
    assert VehicleName(text) == NameAt(ls, k);
    NameAtShape(ls, k);
  }

  /** A text holding a single title line names exactly that line. */
  lemma SingleTitleLine(text: string)
    requires |Lines(text)| == 1 && IsTitleLine(Lines(text)[0])
    ensures VehicleName(text) == Lines(text)[0]
  {
    assert IsFirstTitle(Lines(text), 0);
  }

  /** Re-running the locator on a name it returned unmerged gives the same
      name. */
  lemma RerunUnmerged(text: string, k: nat)
    requires IsFirstTitle(Lines(text), k)
    requires VehicleName(text) == Lines(text)[k]
    ensures VehicleName(VehicleName(text)) == VehicleName(text)
  {
    var l := Lines(text)[k];
    LinesOfLine(l);
    SingleTitleLine(l);
  }

  lemma KeywordsHaveNoSpace()
    ensures forall k | 0 <= k < |NoiseKeywords| :: ' ' !in NoiseKeywords[k]
  {
  }

  lemma {:induction false} ContainsJoined(a: string, b: string, w: string)
    requires ' ' !in w
    ensures Contains(a + " " + b, w) <==> Contains(a, w) || Contains(b, w)
  {
    var m := a + " " + b;
    assert m == a + [' '] + b;
    if Contains(m, w) {
      ContainsAcross(a, ' ', b, w);
    }
    if Contains(a, w) {
      var i :| 0 <= i <= |a| && w <= a[i..];
      assert w <= m[i..];
    }
    if Contains(b, w) {
      var i :| 0 <= i <= |b| && w <= b[i..];
      assert m[|a| + 1 + i..] == b[i..];
    }
  }

  lemma ContainsAnyJoined(a: string, b: string, ws: seq<string>)
    requires forall k | 0 <= k < |ws| :: ' ' !in ws[k]
    ensures ContainsAny(a + " " + b, ws) <==> ContainsAny(a, ws) || ContainsAny(b, ws)
  {
    forall k | 0 <= k < |ws|
      ensures Contains(a + " " + b, ws[k]) <==> Contains(a, ws[k]) || Contains(b, ws[k])
    {
      ContainsJoined(a, b, ws[k]);
    }
  }

  /** No noise keyword holds a space, so none straddles the space that
      joins a merged name: the merged name is noisy exactly when one of
      its two lines is. */
  lemma NoiseOfMerged(l: string, n: string)
    ensures HasNoiseKeyword(l + " " + n) <==> HasNoiseKeyword(l) || HasNoiseKeyword(n)
  {
    LowerAppend(l + " ", n);
    LowerAppend(l, " ");
    assert Lower(" ") == " ";
    assert Lower(l + " " + n) == Lower(l) + " " + Lower(n);
    KeywordsHaveNoSpace();
    ContainsAnyJoined(Lower(l), Lower(n), NoiseKeywords);
  }

  /** A merged name is a clean line. */
  lemma MergedIsLine(l: string, n: string)
    requires IsLine(l) && IsLine(n)
    ensures IsLine(l + " " + n)
  {
    var m := l + " " + n;
    assert m[0] == l[0] && m[|m| - 1] == n[|n| - 1];
  }

  /** A merged name passes the title tests exactly when its variant line
      has no `@` and no noise keyword. */
  lemma MergedIsTitle(l: string, n: string)
    requires IsTitleLine(l) && IsVariantLine(n)
    ensures IsTitleLine(l + " " + n) <==> '@' !in n && !HasNoiseKeyword(n)
  {
    var m := l + " " + n;
    DigitCountAppend(l + " ", n);
    DigitCountAppend(l, " ");
    NoiseOfMerged(l, n);
    var i :| 0 <= i < |l| && IsLetter(l[i]);
    assert IsLetter(m[i]);
    assert '@' in m <==> '@' in l || '@' in n;
  }

  /** Re-running the locator on a merged name gives the same name when the
      variant line has no `@` and no noise keyword, and the sentinel
      otherwise: the variant line is never put through the skip tests. */
  lemma RerunMerged(text: string, k: nat)
    requires IsFirstTitle(Lines(text), k)
    requires k + 1 < |Lines(text)| && IsVariantLine(Lines(text)[k + 1])
    ensures var n := Lines(text)[k + 1];
      VehicleName(VehicleName(text))
        == if '@' in n || HasNoiseKeyword(n) then NotAvailable else VehicleName(text)
  {
    var ls := Lines(text);
    var l, n := ls[k], ls[k + 1];
    var m := l + " " + n;
    assert VehicleName(text) == m;
    MergedIsLine(l, n);
    MergedIsTitle(l, n);
    LinesOfLine(m);
    if IsTitleLine(m) {
      SingleTitleLine(m);
    } else {
      NoTitleGivesNotAvailable(m);
    }
  }

  /** A word cannot occur where its first three characters never stand
      side by side. */
  lemma AbsentTriple(s: string, w: string)
    requires |w| >= 3
    requires forall i | 0 <= i < |s| - 2 :: s[i] != w[0] || s[i + 1] != w[1] || s[i + 2] != w[2]
    ensures !Contains(s, w)
  {
    forall i | 0 <= i <= |s| ensures !(w <= s[i..]) {
      if i + 2 < |s| {
        assert s[i..][0] == s[i] && s[i..][1] == s[i + 1] && s[i..][2] == s[i + 2];
      }
    }
  }

  lemma SentinelLower(l: string)
    requires l == "Not Available"
    ensures Lower(l) == "not available"
  {
    var low := "not available";
    forall i | 0 <= i < |l| ensures Lower(l)[i] == low[i] {
    }
  }

  lemma SentinelNoKeywordLower()
    ensures forall k | 0 <= k < |NoiseKeywords| :: !Contains("not available", NoiseKeywords[k])
  {
    var low := "not available";
    forall k | 0 <= k < |NoiseKeywords| ensures !Contains(low, NoiseKeywords[k]) {
      AbsentTriple(low, NoiseKeywords[k]);
    }
  }

  /** The sentinel itself reads as a clean title line: no digits, no `@`,
      no noise keyword, and letters. */
  lemma SentinelIsLine(l: string)
    requires l == "Not Available"
    ensures IsLine(l)
  {
  }

  lemma SentinelIsTitle(l: string)
    requires l == "Not Available"
    ensures IsTitleLine(l)
  {
    NoDigits(l);
    SentinelLower(l);
    SentinelNoKeywordLower();
    assert IsLetter(l[0]);
  }

  /** Re-running the locator on the sentinel gives the sentinel. */
  lemma RerunSentinel()
    ensures VehicleName(NotAvailable) == NotAvailable
  {
    var l := NotAvailable;
    SentinelIsLine(l);
    SentinelIsTitle(l);
    LinesOfLine(l);
    SingleTitleLine(l);
  }

  /** The first title line of `ls` is merged with a variant line that holds
      an `@` or a noise keyword. */
  predicate NoisyMerge(ls: seq<string>) {
    exists k | 0 <= k < |ls| && IsFirstTitle(ls, k) ::
      k + 1 < |ls| && IsVariantLine(ls[k + 1]) && ('@' in ls[k + 1] || HasNoiseKeyword(ls[k + 1]))
  }

  /** With no title line there is no merge, and the sentinel comes back. */
  lemma RerunNoTitle(text: string)
    requires FirstTitleFrom(Lines(text), 0).None?
    ensures !NoisyMerge(Lines(text))
    ensures VehicleName(VehicleName(text)) == VehicleName(text)
  {
    assert VehicleName(text) == NotAvailable;
    RerunSentinel();
  }

  /** Whether the merge is noisy is decided at the first title line. */
  lemma NoisyMergeAt(ls: seq<string>, k: nat)
    requires IsFirstTitle(ls, k)
    ensures NoisyMerge(ls) <==>
      k + 1 < |ls| && IsVariantLine(ls[k + 1]) && ('@' in ls[k + 1] || HasNoiseKeyword(ls[k + 1]))
  {
    forall k' | IsFirstTitle(ls, k') ensures k' == k { FirstTitleUnique(ls, k, k'); }
  }

  /** At the first title line, re-running follows RerunMerged or
      RerunUnmerged. */
  lemma RerunAtTitle(text: string, k: nat)
    requires IsFirstTitle(Lines(text), k)
    ensures VehicleName(VehicleName(text))
              == if NoisyMerge(Lines(text)) then NotAvailable else VehicleName(text)
  {
    var ls := Lines(text);
    NoisyMergeAt(ls, k);
    if k + 1 < |ls| && IsVariantLine(ls[k + 1]) {
      RerunMerged(text, k);
    } else {
      NameFromFirstTitle(text, k);
      RerunUnmerged(text, k);
    }
  }

  /** Re-running the locator on its own output, for every outcome: the
      sentinel and an unmerged name come back unchanged; a merged name comes
      back unchanged unless its variant line holds an `@` or a noise
      keyword, in which case the sentinel comes back. */
  lemma Rerun(text: string)
    ensures VehicleName(VehicleName(text))
              == if NoisyMerge(Lines(text)) then NotAvailable else VehicleName(text)
  {
    var r := FirstTitleFrom(Lines(text), 0);
    if r.None? {
      RerunNoTitle(text);
    } else {
      assert IsFirstTitle(Lines(text), r.value);
      RerunAtTitle(text, r.value);
    }
  }

  /** The one case is a real exception: the merged name is not the
      sentinel, and a second run changes it. */
  lemma NoisyMergeChanges(text: string)
    requires NoisyMerge(Lines(text))
    ensures VehicleName(text) != NotAvailable
    ensures VehicleName(VehicleName(text)) != VehicleName(text)
  {
    var ls := Lines(text);
    var k :| 0 <= k < |ls| && IsFirstTitle(ls, k)
      && k + 1 < |ls| && IsVariantLine(ls[k + 1]) && ('@' in ls[k + 1] || HasNoiseKeyword(ls[k + 1]));
    NameFromFirstTitle(text, k);
    MergedNotSentinel(ls[k], ls[k + 1]);
    Rerun(text);
  }

  /** A merged name whose variant line holds `@` or a noise keyword is not
      the sentinel, which holds neither. */
  lemma MergedNotSentinel(l: string, n: string)
    requires '@' in n || HasNoiseKeyword(n)
    ensures l + " " + n != NotAvailable
  {
    var m := l + " " + n;
    NoiseOfMerged(l, n);
    assert '@' in n ==> m[|l| + 1..] == n;
    SentinelIsTitle(NotAvailable);
  }

  /** A title line followed by a variant line gives the two joined by a
      space. */
  lemma TitleThenVariant(l: string, n: string)
    requires IsLine(l) && IsLine(n) && IsTitleLine(l) && IsVariantLine(n)
    ensures VehicleName(l + "\n" + n) == l + " " + n
  {
    assert Join([l, n]) == l + "\n" + n;
    LinesJoin([l, n]);
    assert IsFirstTitle([l, n], 0);
  }

  /** A word cannot occur where its first character does not. */
  lemma AbsentInitial(s: string, w: string)
    requires w != [] && w[0] !in s
    ensures !Contains(s, w)
  {
  }

  /** The first letters of the noise keywords. */
  const KeywordInitials: string := "vctpeafor"

  /** A line whose lower-cased form holds no keyword initial has no noise
      keyword. */
  lemma NoKeywordInitial(line: string)
    requires forall i | 0 <= i < |line| :: ToLower(line[i]) !in KeywordInitials
    ensures !HasNoiseKeyword(line)
  {
    forall k | 0 <= k < |NoiseKeywords| ensures !Contains(Lower(line), NoiseKeywords[k]) {
      assert NoiseKeywords[k][0] in KeywordInitials;
      AbsentInitial(Lower(line), NoiseKeywords[k]);
    }
  }

  /** A title line followed by a line that is no variant gives the title
      line alone. */
  lemma TitleThenOther(l: string, n: string)
    requires IsLine(l) && IsLine(n) && IsTitleLine(l) && !IsVariantLine(n)
    ensures VehicleName(l + "\n" + n) == l
  {
    assert Join([l, n]) == l + "\n" + n;
    LinesJoin([l, n]);
    assert IsFirstTitle([l, n], 0);
  }

  /** The skip test is "more than 40% digits" and the merge test "fewer
      than 40% digits": a line with exactly 40% digits passes the first and
      fails the second. */
  lemma ExactlyFortyPercent(line: string)
    requires 5 * DigitCount(line) == 2 * |line|
    ensures !MostlyDigits(line) && !FewDigits(line)
  {
  }

  lemma B1i2nDigits(m: string)
    requires m == "B1i2n"
    ensures DigitCount(m) == 2 && HasLetter(m)
  {
    assert DigitCount(m[3..]) == 1 by { assert m[3..][1..] == m[4..]; }
    assert DigitCount(m[1..]) == 2 by { assert m[1..][1..] == m[2..] && m[2..][1..] == m[3..]; }
    assert IsLetter(m[0]);
  }

  /** "B1i2n" has exactly 40% digits: it is a title line, but no variant. */
  lemma FortyPercentBoundary(m: string)
    requires m == "B1i2n"
    ensures IsTitleLine(m) && !IsVariantLine(m)
  {
    B1i2nDigits(m);
    ExactlyFortyPercent(m);
    NoKeywordInitial(m);
  }

  lemma MiniIsTitle(g: string)
    requires g == "Mini"
    ensures IsTitleLine(g)
  {
    NoDigits(g);
    assert IsLetter(g[0]);
    NoKeywordInitial(g);
  }

  lemma MiniLines(g: string, m: string)
    requires g == "Mini" && m == "B1i2n"
    ensures IsLine(g) && IsLine(m)
  {
  }

  /** "Mini" then "B1i2n" (40% digits) names "Mini" alone. */
  lemma FortyPercentNotMerged(g: string, m: string)
    requires g == "Mini" && m == "B1i2n"
    ensures VehicleName(g + "\n" + m) == g
  {
    FortyPercentBoundary(m);
    MiniIsTitle(g);
    MiniLines(g, m);
    TitleThenOther(g, m);
  }

  /** A line without digits has digit count zero. */
  lemma {:induction false} NoDigits(s: string)
    requires forall i | 0 <= i < |s| :: !IsDigit(s[i])
    ensures DigitCount(s) == 0
  {
    if s != [] {
      NoDigits(s[1..]);
    }
  }

  /** A word cannot occur where its first two characters never stand
      side by side. */
  lemma AbsentPair(s: string, w: string)
    requires |w| >= 2
    requires forall i | 0 <= i < |s| - 1 :: s[i] != w[0] || s[i + 1] != w[1]
    ensures !Contains(s, w)
  {
    forall i | 0 <= i <= |s| ensures !(w <= s[i..]) {
      if i + 1 < |s| {
        assert s[i..][0] == s[i] && s[i..][1] == s[i + 1];
      }
    }
  }

  lemma FordFocusLower(l: string)
    requires l == "Ford Focus"
    ensures Lower(l) == "ford focus"
  {
    var low := "ford focus";
    forall i | 0 <= i < |l| ensures Lower(l)[i] == low[i] {
    }
  }

  lemma FordFocusNoKeywordLower()
    ensures forall k | 0 <= k < |NoiseKeywords| :: !Contains("ford focus", NoiseKeywords[k])
  {
    var low := "ford focus";
    forall k | 0 <= k < |NoiseKeywords| ensures !Contains(low, NoiseKeywords[k]) {
      AbsentPair(low, NoiseKeywords[k]);
    }
  }

  /** "Ford Focus" is a title line. */
  lemma FordFocusIsTitle(l: string)
    requires l == "Ford Focus"
    ensures IsTitleLine(l)
  {
    NoDigits(l);
    FordFocusLower(l);
    FordFocusNoKeywordLower();
    assert IsLetter(l[0]);
  }

  lemma FordFocusIsLine()
    ensures IsLine("Ford Focus")
  {
  }

  lemma TitaniumIsLine()
    ensures IsLine("Titanium Ecoboost")
  {
  }

  /** "Titanium Ecoboost" is a variant line. */
  lemma TitaniumIsVariant()
    ensures IsVariantLine("Titanium Ecoboost")
  {
    NoDigits("Titanium Ecoboost");
    assert IsLetter("Titanium Ecoboost"[0]);
  }

  /** "Ford Focus" followed by "Titanium Ecoboost" names
      "Ford Focus Titanium Ecoboost". */
  lemma FordFocusExample(l: string, n: string)
    requires l == "Ford Focus" && n == "Titanium Ecoboost"
    ensures VehicleName(l + "\n" + n) == l + " " + n
  {
    FordFocusIsTitle(l);
    FordFocusIsLine();
    TitaniumIsLine();
    TitaniumIsVariant();
    TitleThenVariant(l, n);
  }
}
