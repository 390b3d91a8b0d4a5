/** The regular expressions of `extract_fields` (filter_contract.py:90-135)
    all have one shape: literal words and `\s*` gaps, one capture group
    `(C+)` over a character class C, then more words and gaps.  This module
    gives that shape a declarative meaning (`Parses`: some choice of gap
    lengths makes the text fit) and a deterministic matcher (`MatchAt`,
    which takes every gap and the group as long as possible), and proves
    that for well-formed patterns the matcher finds exactly the parse that
    Python's backtracking `re.search` reports: the leftmost start, and at
    that start the longest group. */
module Patterns {
  import opened Wrappers
  import opened Text

  /** The class of a capture group: `\d`, `[\d,.]` or `[a-z]`. */
  datatype Class = Digits | Amount | Letters

  predicate InClass(c: char, cls: Class) {
    match cls
    case Digits => IsDigit(c)
    case Amount => IsDigit(c) || c == ',' || c == '.'
    case Letters => IsLowerLetter(c)
  }

  lemma ClassHasNoSpace(c: char, cls: Class)
    requires InClass(c, cls)
    ensures !IsSpace(c)
  {
  }

  /** An element outside the group: a literal word, or `\s*`. */
  datatype Step = Lit(word: string) | Blanks

  /** `before (group+) after`. */
  datatype Pattern = Pattern(before: seq<Step>, group: Class, after: seq<Step>)

  predicate AllBlank(t: string, p: nat, k: nat)
    requires p <= k <= |t|
  {
    forall i | p <= i < k :: IsSpace(t[i])
  }

  predicate AllInClass(t: string, p: nat, k: nat, cls: Class)
    requires p <= k <= |t|
  {
    forall i | p <= i < k :: InClass(t[i], cls)
  }

  /** Declarative: the steps match `t[p..f]` for some choice of the gap
      lengths. */
  ghost predicate Fits(t: string, p: nat, steps: seq<Step>, f: nat)
    decreases |steps|
  {
    p <= |t| &&
    if steps == [] then f == p
    else match steps[0]
      case Lit(w) => p + |w| <= |t| && t[p..p + |w|] == w && Fits(t, p + |w|, steps[1..], f)
      case Blanks => exists k | p <= k <= |t| :: AllBlank(t, p, k) && Fits(t, k, steps[1..], f)
  }

  /** Declarative: the pattern matches at `p` with its group on `t[q..e]`. */
  ghost predicate Parses(t: string, p: nat, pat: Pattern, q: nat, e: nat) {
    q < e <= |t| && Fits(t, p, pat.before, q) && AllInClass(t, q, e, pat.group)
    && exists f :: Fits(t, e, pat.after, f)
  }

  // ---------------------------------------------------------------------
  // The matcher
  // ---------------------------------------------------------------------

  /** `\s*`, greedy: the end of the whitespace run at `p`. */
  function SkipBlanks(t: string, p: nat): (k: nat)
    requires p <= |t|
    ensures p <= k <= |t| && AllBlank(t, p, k)
    ensures k == |t| || !IsSpace(t[k])
    decreases |t| - p
  {
    if p < |t| && IsSpace(t[p]) then SkipBlanks(t, p + 1) else p
  }

  /** `C+`, greedy: the end of the run of class characters at `p`. */
  function RunEnd(t: string, p: nat, cls: Class): (e: nat)
    requires p <= |t|
    ensures p <= e <= |t| && AllInClass(t, p, e, cls)
    ensures e == |t| || !InClass(t[e], cls)
    decreases |t| - p
  {
    if p < |t| && InClass(t[p], cls) then RunEnd(t, p + 1, cls) else p
  }

  /** The steps from `p` with every gap taken as long as it goes. */
  function Walk(t: string, p: nat, steps: seq<Step>): (r: Option<nat>)
    requires p <= |t|
    ensures r.Some? ==> p <= r.value <= |t|
    decreases |steps|
  {
    if steps == [] then Some(p)
    else match steps[0]
      case Lit(w) =>
        if p + |w| <= |t| && t[p..p + |w|] == w then Walk(t, p + |w|, steps[1..]) else None
      case Blanks => Walk(t, SkipBlanks(t, p), steps[1..])
  }

  /** The match at `p`: the before-steps, the longest group run, then the
      after-steps; the result is the group's bounds. */
  function MatchAt(t: string, p: nat, pat: Pattern): (r: Option<(nat, nat)>)
    requires p <= |t|
    ensures r.Some? ==> p <= r.value.0 < r.value.1 <= |t|
    ensures r.Some? ==> AllInClass(t, r.value.0, r.value.1, pat.group)
    ensures r.Some? ==> r.value.1 == |t| || !InClass(t[r.value.1], pat.group)
  {
    match Walk(t, p, pat.before)
    case None => None
    case Some(q) =>
      var e := RunEnd(t, q, pat.group);
      if q < e && Walk(t, e, pat.after).Some? then Some((q, e)) else None
  }

  /** Where a search succeeded: the match start and the group's bounds. */
  datatype Hit = Hit(start: nat, groupStart: nat, groupEnd: nat)

  /** `re.search` from `p`: the first start position with a match. */
  function SearchFrom(t: string, pat: Pattern, p: nat): (r: Option<Hit>)
    requires p <= |t|
    ensures r.Some? ==> p <= r.value.start <= |t|
                        && MatchAt(t, r.value.start, pat) == Some((r.value.groupStart, r.value.groupEnd))
    ensures r.Some? ==> forall p' | p <= p' < r.value.start :: MatchAt(t, p', pat).None?
    ensures r.None? ==> forall p' | p <= p' <= |t| :: MatchAt(t, p', pat).None?
    decreases |t| - p
  {
    match MatchAt(t, p, pat)
    case Some(g) => Some(Hit(p, g.0, g.1))
    case None => if p == |t| then None else SearchFrom(t, pat, p + 1)
  }

  /** `m.group(1) if m else None` for `m = re.search(pattern, t)`: a
      non-empty run of the group's class. */
  function Find(t: string, pat: Pattern): (r: Option<string>)
    ensures r.Some? ==> r.value != [] && forall i | 0 <= i < |r.value| :: InClass(r.value[i], pat.group)
  {
    match SearchFrom(t, pat, 0)
    case None => None
    case Some(h) => Some(t[h.groupStart..h.groupEnd])
  }

  // ---------------------------------------------------------------------
  // Well-formed patterns, where greedy never has to back off
  // ---------------------------------------------------------------------

  /** A non-empty literal whose first character is not whitespace. */
  predicate Solid(s: Step) {
    s.Lit? && s.word != [] && !IsSpace(s.word[0])
  }

  /** Every gap is last or followed by a solid literal. */
  predicate Guarded(steps: seq<Step>)
    decreases |steps|
  {
    steps == []
    || ((steps[0].Blanks? ==> |steps| == 1 || Solid(steps[1])) && Guarded(steps[1..]))
  }

  predicate EndsInBlanks(steps: seq<Step>) {
    steps != [] && steps[|steps| - 1].Blanks?
  }

  /** What follows the group cannot begin with a class character. */
  predicate StartsOutside(after: seq<Step>, cls: Class) {
    after == []
    || (Solid(after[0]) && !InClass(after[0].word[0], cls))
    || (after[0].Blanks? && |after| >= 2 && Solid(after[1]) && !InClass(after[1].word[0], cls))
  }

  predicate WellFormed(pat: Pattern) {
    Guarded(pat.before) && Guarded(pat.after) && !EndsInBlanks(pat.after)
    && StartsOutside(pat.after, pat.group)
  }

  // ---------------------------------------------------------------------
  // The matcher agrees with the declarative meaning
  // ---------------------------------------------------------------------

  lemma {:induction false} WalkSound(t: string, p: nat, steps: seq<Step>)
    requires p <= |t| && Walk(t, p, steps).Some?
    ensures Fits(t, p, steps, Walk(t, p, steps).value)
    decreases |steps|
  {
    if steps != [] {
      match steps[0]
      case Lit(w) => WalkSound(t, p + |w|, steps[1..]);
      case Blanks =>
        var k := SkipBlanks(t, p);
        WalkSound(t, k, steps[1..]);
    }
  }

  /** Text fitting a solid literal starts with a non-space character. */
  lemma FitsSolid(t: string, k: nat, steps: seq<Step>, f: nat)
    requires steps != [] && Solid(steps[0]) && Fits(t, k, steps, f)
    ensures k < |t| && t[k] == steps[0].word[0] && !IsSpace(t[k])
  {
    assert t[k..k + |steps[0].word|][0] == t[k];
  }

  /** A guarded gap can take only its longest length. */
  lemma {:induction false} GapIsLongest(t: string, p: nat, k: nat, steps: seq<Step>, f: nat)
    requires steps != [] && steps[0].Blanks? && Guarded(steps)
    requires p <= k <= |t| && AllBlank(t, p, k) && Fits(t, k, steps[1..], f)
    requires |steps| == 1 ==> f >= |t| || !IsSpace(t[f])
    ensures k == SkipBlanks(t, p)
  {
    var s := SkipBlanks(t, p);
    if |steps| == 1 {
      assert f == k;
    } else {
      FitsSolid(t, k, steps[1..], f);
    }
    assert k == |t| || !IsSpace(t[k]);
  }

  lemma {:induction false} WalkComplete(t: string, p: nat, steps: seq<Step>, f: nat)
    requires Guarded(steps) && Fits(t, p, steps, f)
    requires EndsInBlanks(steps) ==> f >= |t| || !IsSpace(t[f])
    ensures Walk(t, p, steps) == Some(f)
    decreases |steps|
  {
    if steps != [] {
      var rest := steps[1..];
      assert EndsInBlanks(rest) ==> EndsInBlanks(steps);
      match steps[0]
      case Lit(w) => WalkComplete(t, p + |w|, rest, f);
      case Blanks =>
        var k :| p <= k <= |t| && AllBlank(t, p, k) && Fits(t, k, rest, f);
        GapIsLongest(t, p, k, steps, f);
        WalkComplete(t, k, rest, f);
    }
  }

  /** What the matcher returns is a parse. */
  lemma MatchAtSound(t: string, p: nat, pat: Pattern)
    requires p <= |t| && MatchAt(t, p, pat).Some?
    ensures Parses(t, p, pat, MatchAt(t, p, pat).value.0, MatchAt(t, p, pat).value.1)
  {
    var q := Walk(t, p, pat.before).value;
    var e := RunEnd(t, q, pat.group);
    WalkSound(t, p, pat.before);
    WalkSound(t, e, pat.after);
  }

  /** After a group that stops short of its longest run, the rest of a
      well-formed pattern cannot fit. */
  lemma ShortGroupFails(t: string, pat: Pattern, e: nat, f: nat)
    requires WellFormed(pat) && pat.after != []
    requires e < |t| && InClass(t[e], pat.group)
    ensures !Fits(t, e, pat.after, f)
  {
    ClassHasNoSpace(t[e], pat.group);
    if Fits(t, e, pat.after, f) {
      if pat.after[0].Lit? {
        FitsSolid(t, e, pat.after, f);
      } else {
        var k :| e <= k <= |t| && AllBlank(t, e, k) && Fits(t, k, pat.after[1..], f);
        assert k == e;
        FitsSolid(t, k, pat.after[1..], f);
      }
    }
  }

  /** Any parse at `p` starts its group where the matcher does and ends
      it no later. */
  lemma MatchAtComplete(t: string, p: nat, pat: Pattern, q: nat, e: nat)
    requires WellFormed(pat) && Parses(t, p, pat, q, e)
    ensures MatchAt(t, p, pat).Some?
    ensures MatchAt(t, p, pat).value.0 == q && e <= MatchAt(t, p, pat).value.1
  {
    ClassHasNoSpace(t[q], pat.group);
    WalkComplete(t, p, pat.before, q);
    var e' := RunEnd(t, q, pat.group);
    assert e <= e';
    var f :| Fits(t, e, pat.after, f);
    if pat.after == [] {
    } else if e < e' {
      ShortGroupFails(t, pat, e, f);
    } else {
      WalkComplete(t, e, pat.after, f);
    }
  }

  /** At one start position the matcher succeeds exactly when some parse
      exists, and then returns the parse with the longest group. */
  lemma MatchAtIsLongestParse(t: string, p: nat, pat: Pattern)
    requires WellFormed(pat) && p <= |t|
    ensures MatchAt(t, p, pat).None? <==> forall q: nat, e: nat :: !Parses(t, p, pat, q, e)
    ensures MatchAt(t, p, pat).Some? ==>
              var (q, e) := MatchAt(t, p, pat).value;
              Parses(t, p, pat, q, e)
              && forall q': nat, e': nat | Parses(t, p, pat, q', e') :: q' == q && e' <= e
  {
    if MatchAt(t, p, pat).Some? {
      MatchAtSound(t, p, pat);
    }
    forall q': nat, e': nat | Parses(t, p, pat, q', e')
      ensures MatchAt(t, p, pat).Some? && MatchAt(t, p, pat).value.0 == q'
      ensures e' <= MatchAt(t, p, pat).value.1
    {
      MatchAtComplete(t, p, pat, q', e');
    }
  }

  /** No start position up to `k` parses when the matcher fails at all of
      them. */
  lemma NoMatchNoParse(t: string, pat: Pattern, k: nat)
    requires WellFormed(pat) && k <= |t|
    requires forall p' | 0 <= p' < k :: MatchAt(t, p', pat).None?
    ensures forall p: nat, q: nat, e: nat | p < k :: !Parses(t, p, pat, q, e)
  {
    forall p: nat, q: nat, e: nat | p < k ensures !Parses(t, p, pat, q, e) {
      MatchAtIsLongestParse(t, p, pat);
    }
  }

  /** The search fails exactly when the pattern parses nowhere. */
  lemma SearchFailsIffNoParse(t: string, pat: Pattern)
    requires WellFormed(pat)
    ensures SearchFrom(t, pat, 0).None? <==> forall p: nat, q: nat, e: nat | p <= |t| :: !Parses(t, p, pat, q, e)
  {
    var r := SearchFrom(t, pat, 0);
    if r.None? {
      NoMatchNoParse(t, pat, |t|);
      MatchAtIsLongestParse(t, |t|, pat);
    } else {
      MatchAtSound(t, r.value.start, pat);
    }
  }

  /** A search that succeeds reports a parse at the leftmost parsing start,
      with the longest group there. */
  lemma SearchIsLeftmostLongest(t: string, pat: Pattern)
    requires WellFormed(pat) && SearchFrom(t, pat, 0).Some?
    ensures var h := SearchFrom(t, pat, 0).value;
              && Parses(t, h.start, pat, h.groupStart, h.groupEnd)
              && (forall p: nat, q: nat, e: nat | p < h.start :: !Parses(t, p, pat, q, e))
              && (forall q: nat, e: nat | Parses(t, h.start, pat, q, e) :: q == h.groupStart && e <= h.groupEnd)
  {
    var h := SearchFrom(t, pat, 0).value;
    MatchAtIsLongestParse(t, h.start, pat);
    NoMatchNoParse(t, pat, h.start);
  }

  /** Find is `re.search(...).group(1)` for a well-formed pattern: it fails
      exactly when the pattern parses nowhere; otherwise it reports the
      group of the leftmost start that parses, taken as long as possible. */
  lemma FindIsLeftmostLongest(t: string, pat: Pattern)
    requires WellFormed(pat)
    ensures Find(t, pat).None? <==> forall p: nat, q: nat, e: nat | p <= |t| :: !Parses(t, p, pat, q, e)
    ensures SearchFrom(t, pat, 0).Some? ==>
              var h := SearchFrom(t, pat, 0).value;
              && Find(t, pat) == Some(t[h.groupStart..h.groupEnd])
              && Parses(t, h.start, pat, h.groupStart, h.groupEnd)
              && (forall p: nat, q: nat, e: nat | p < h.start :: !Parses(t, p, pat, q, e))
              && (forall q: nat, e: nat | Parses(t, h.start, pat, q, e) :: q == h.groupStart && e <= h.groupEnd)
  {
    SearchFailsIffNoParse(t, pat);
    if SearchFrom(t, pat, 0).Some? {
      SearchIsLeftmostLongest(t, pat);
    }
  }

  // ---------------------------------------------------------------------
  // What `re.search(...).group(1)` means, stated without the matcher
  // ---------------------------------------------------------------------

  /** The pattern parses at no start position of `t`. */
  ghost predicate NoParse(t: string, pat: Pattern) {
    forall p: nat, q: nat, e: nat | p <= |t| :: !Parses(t, p, pat, q, e)
  }

  /** `g` is the group Python reports: the group of a parse at the leftmost
      start that parses, and the longest group at that start. */
  ghost predicate IsSearchGroup(t: string, pat: Pattern, g: string) {
    exists p: nat, q: nat, e: nat | Parses(t, p, pat, q, e) ::
      && g == t[q..e]
      && (forall p': nat, q': nat, e': nat | p' < p :: !Parses(t, p', pat, q', e'))
      && (forall q': nat, e': nat | Parses(t, p, pat, q', e') :: q' == q && e' <= e)
  }

  /** Find in the declarative terms. */
  lemma FindMeaning(t: string, pat: Pattern)
    requires WellFormed(pat)
    ensures Find(t, pat).None? <==> NoParse(t, pat)
    ensures Find(t, pat).Some? ==> IsSearchGroup(t, pat, Find(t, pat).value)
  {
    FindIsLeftmostLongest(t, pat);
    if SearchFrom(t, pat, 0).Some? {
      var h := SearchFrom(t, pat, 0).value;
      assert Parses(t, h.start, pat, h.groupStart, h.groupEnd);
    }
  }
}
