/** The line view of a document used by the vehicle-name locator:
    `[l.strip() for l in text.split("\n") if l.strip()]`
    (filter_contract.py:46). */
module LineSplit {
  import opened Text

  /** `s.split("\n")`: the pieces between newline characters; there is
      always at least one piece, possibly empty. */
  function Split(s: string): (parts: seq<string>)
    ensures |parts| >= 1
    ensures forall i | 0 <= i < |parts| :: '\n' !in parts[i]
  {
    if s == [] then [[]]
    else if s[0] == '\n' then [[]] + Split(s[1..])
    else
      var rest := Split(s[1..]);
      [[s[0]] + rest[0]] + rest[1..]
  }

  /** `"\n".join(parts)`. */
  function Join(parts: seq<string>): string
    requires |parts| >= 1
  {
    if |parts| == 1 then parts[0] else parts[0] + "\n" + Join(parts[1..])
  }

  /** Splitting loses nothing: joining the pieces gives the text back. */
  lemma {:induction false} JoinSplit(s: string)
    ensures Join(Split(s)) == s
  {
    if s == [] {
    } else if s[0] == '\n' {
      JoinSplit(s[1..]);
      assert Split(s)[1..] == Split(s[1..]);
    } else {
      JoinSplit(s[1..]);
      var rest := Split(s[1..]);
      if |rest| == 1 {
      } else {
        assert Split(s)[1..] == rest[1..];
        assert Join(rest) == rest[0] + "\n" + Join(rest[1..]);
      }
    }
  }

  lemma {:induction false} SplitOfPiece(a: string, rest: string)
    requires '\n' !in a
    ensures Split(a + "\n" + rest) == [a] + Split(rest)
    ensures Split(a) == [a]
  {
    if a == [] {
      assert a + "\n" + rest == ['\n'] + rest;
    } else {
      SplitOfPiece(a[1..], rest);
      assert (a + "\n" + rest)[1..] == a[1..] + "\n" + rest;
      assert a == [a[0]] + a[1..];
    }
  }

  /** Splitting undoes joining pieces that hold no newline. */
  lemma {:induction false} SplitJoin(parts: seq<string>)
    requires |parts| >= 1
    requires forall i | 0 <= i < |parts| :: '\n' !in parts[i]
    ensures Split(Join(parts)) == parts
  {
    if |parts| == 1 {
      SplitOfPiece(parts[0], []);
    } else {
      SplitJoin(parts[1..]);
      SplitOfPiece(parts[0], Join(parts[1..]));
      assert parts == [parts[0]] + parts[1..];
    }
  }

  function TrimStart(s: string): (r: string)
    ensures |r| <= |s| && r == s[|s| - |r|..]
    ensures forall i | 0 <= i < |s| - |r| :: IsSpace(s[i])
    ensures r == [] || !IsSpace(r[0])
  {
    if s != [] && IsSpace(s[0]) then TrimStart(s[1..]) else s
  }

  function TrimEnd(s: string): (r: string)
    ensures |r| <= |s| && r == s[..|r|]
    ensures forall i | |r| <= i < |s| :: IsSpace(s[i])
    ensures r == [] || !IsSpace(r[|r| - 1])
  {
    if s != [] && IsSpace(s[|s| - 1]) then TrimEnd(s[..|s| - 1]) else s
  }

  /** `r` is the slice of `s` at `a`, with only whitespace around it. */
  predicate SliceWithSpaceAround(s: string, a: nat, r: string) {
    a + |r| <= |s| && r == s[a..a + |r|]
    && (forall i | 0 <= i < a :: IsSpace(s[i]))
    && (forall i | a + |r| <= i < |s| :: IsSpace(s[i]))
  }

  lemma NewlineFreeSlice(s: string, a: nat, r: string)
    requires SliceWithSpaceAround(s, a, r)
    requires '\n' !in s
    ensures '\n' !in r
  {
    forall j | 0 <= j < |r| ensures r[j] != '\n' { assert r[j] == s[a + j]; }
  }

  /** Whitespace before a suffix `t` of `s`, and whitespace after a prefix
      `r` of `t`, put `r` in `s` with only whitespace around it. */
  lemma SliceOfSuffix(s: string, t: string, r: string)
    requires |t| <= |s| && t == s[|s| - |t|..]
    requires forall i | 0 <= i < |s| - |t| :: IsSpace(s[i])
    requires |r| <= |t| && r == t[..|r|]
    requires forall i | |r| <= i < |t| :: IsSpace(t[i])
    ensures SliceWithSpaceAround(s, |s| - |t|, r)
  {
    var a := |s| - |t|;
    assert r == s[a..a + |r|];
    forall i | a + |r| <= i < |s| ensures IsSpace(s[i]) {
      assert s[i] == t[i - a];
    }
  }

  /** Trimming the start and then the end leaves the slice of `s` that
      begins after the leading whitespace. */
  lemma TrimBothSlice(s: string)
    ensures SliceWithSpaceAround(s, |s| - |TrimStart(s)|, TrimEnd(TrimStart(s)))
  {
    SliceOfSuffix(s, TrimStart(s), TrimEnd(TrimStart(s)));
  }

  /** Trimming a text whose ends are not whitespace changes nothing. */
  lemma TrimBothClean(s: string)
    ensures s == [] || (!IsSpace(s[0]) && !IsSpace(s[|s| - 1])) ==> TrimEnd(TrimStart(s)) == s
  {
    if s == [] || (!IsSpace(s[0]) && !IsSpace(s[|s| - 1])) {
      assert TrimStart(s) == s;
    }
  }

  /** `s.strip()`: the slice of `s` left after removing the whitespace at
      both ends. */
  function Strip(s: string): (r: string)
    ensures exists a :: SliceWithSpaceAround(s, a, r)
    ensures r == [] || (!IsSpace(r[0]) && !IsSpace(r[|r| - 1]))
    ensures s == [] || (!IsSpace(s[0]) && !IsSpace(s[|s| - 1])) ==> r == s
  {
    TrimBothSlice(s);
    TrimBothClean(s);
    TrimEnd(TrimStart(s))
  }

  /** A stripped piece without newlines, if not empty, is a clean line. */
  lemma StripIsLine(piece: string)
    requires '\n' !in piece
    ensures Strip(piece) == [] || IsLine(Strip(piece))
  {
    var l := Strip(piece);
    var a :| SliceWithSpaceAround(piece, a, l);
    NewlineFreeSlice(piece, a, l);
  }

  /** A line as the locator sees it: non-empty, stripped, newline-free. */
  predicate IsLine(l: string) {
    l != [] && '\n' !in l && !IsSpace(l[0]) && !IsSpace(l[|l| - 1])
  }

  /** The stripped pieces that are not empty, in order. */
  function StrippedNonEmpty(parts: seq<string>): (ls: seq<string>)
    requires forall i | 0 <= i < |parts| :: '\n' !in parts[i]
    ensures |ls| <= |parts|
    ensures forall i | 0 <= i < |ls| :: IsLine(ls[i])
  {
    if parts == [] then []
    else
      var l := Strip(parts[0]);
      StripIsLine(parts[0]);
      (if l == [] then [] else [l]) + StrippedNonEmpty(parts[1..])
  }

  /** The trimmed non-empty lines of a text. */
  function Lines(text: string): (ls: seq<string>)
    ensures forall i | 0 <= i < |ls| :: IsLine(ls[i])
  {
    StrippedNonEmpty(Split(text))
  }

  lemma {:induction false} StrippedNonEmptyOfLines(ls: seq<string>)
    requires forall i | 0 <= i < |ls| :: IsLine(ls[i])
    ensures (forall i | 0 <= i < |ls| :: '\n' !in ls[i]) && StrippedNonEmpty(ls) == ls
  {
    if ls != [] {
      StrippedNonEmptyOfLines(ls[1..]);
      TrimBothClean(ls[0]);
      assert StrippedNonEmpty(ls) == [ls[0]] + StrippedNonEmpty(ls[1..]);
      assert Strip(ls[0]) == ls[0];
      assert ls == [ls[0]] + ls[1..];
    }
  }

  /** Lines is a left inverse of joining clean lines with newlines. */
  lemma LinesJoin(ls: seq<string>)
    requires |ls| >= 1
    requires forall i | 0 <= i < |ls| :: IsLine(ls[i])
    ensures Lines(Join(ls)) == ls
  {
    SplitJoin(ls);
    StrippedNonEmptyOfLines(ls);
  }

  /** A clean line read as a text is that one line. */
  lemma LinesOfLine(l: string)
    requires IsLine(l)
    ensures Lines(l) == [l]
  {
    LinesJoin([l]);
  }
}
