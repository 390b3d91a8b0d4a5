/** Character classes and string operations shared by the sanitiser, the
    vehicle-name locator and the field extractor.

    Python decides `str.isdigit`, `str.lower`, `\d`, `\w` and `[a-z]` with
    Unicode tables; here digits, letters and case are ASCII only.  Whitespace
    (`str.isspace`, `str.strip`, regex `\s`) is Python's full set. */
module Text {

  /** The absence sentinel written for every field that is not found. */
  const NotAvailable: string := "Not Available"

  /** Python's `str.isspace`, which is also what `\s` and `\S` test. */
  predicate IsSpace(c: char) {
    c == ' ' || ('\t' <= c <= '\r') || ('\U{1C}' <= c <= '\U{1F}')
    || c == '\U{85}' || c == '\U{A0}' || c == '\U{1680}'
    || ('\U{2000}' <= c <= '\U{200A}') || c == '\U{2028}' || c == '\U{2029}'
    || c == '\U{202F}' || c == '\U{205F}' || c == '\U{3000}'
  }

  predicate IsDigit(c: char) { '0' <= c <= '9' }

  predicate IsLowerLetter(c: char) { 'a' <= c <= 'z' }

  predicate IsUpperLetter(c: char) { 'A' <= c <= 'Z' }

  /** `[A-Za-z]`. */
  predicate IsLetter(c: char) { IsLowerLetter(c) || IsUpperLetter(c) }

  /** Regex `\w`, the class that decides where `\b` holds. */
  predicate IsWordChar(c: char) { IsLetter(c) || IsDigit(c) || c == '_' }

  function ToLower(c: char): (r: char)
    ensures IsUpperLetter(c) ==> IsLowerLetter(r)
    ensures !IsUpperLetter(c) ==> r == c
  {
    if IsUpperLetter(c) then (c as int + 32) as char else c
  }

  function ToUpper(c: char): (r: char)
    ensures IsLowerLetter(c) ==> IsUpperLetter(r) && ToLower(r) == c
    ensures !IsLowerLetter(c) ==> r == c
  {
    if IsLowerLetter(c) then (c as int - 32) as char else c
  }

  /** `str.lower()`: every character lower-cased, the length unchanged. */
  function Lower(s: string): (r: string)
    ensures |r| == |s|
    ensures forall i | 0 <= i < |s| :: r[i] == ToLower(s[i])
  {
    if s == [] then [] else [ToLower(s[0])] + Lower(s[1..])
  }

  lemma LowerAppend(a: string, b: string)
    ensures Lower(a + b) == Lower(a) + Lower(b)
  {
    assert Lower(a + b) == Lower(a) + Lower(b) by {
      forall i | 0 <= i < |a + b|
        ensures Lower(a + b)[i] == (Lower(a) + Lower(b))[i]
      {
        if i < |a| { assert (a + b)[i] == a[i]; } else { assert (a + b)[i] == b[i - |a|]; }
      }
    }
  }

  /** Python's `w in s` on strings: `w` occurs somewhere in `s`. */
  predicate Contains(s: string, w: string) {
    exists i | 0 <= i <= |s| :: w <= s[i..]
  }

  /** An occurrence of `w` in `a + [c] + b` lies in `a`, lies in `b`, or
      covers the separator `c`. */
  lemma ContainsAcross(a: string, c: char, b: string, w: string)
    requires Contains(a + [c] + b, w)
    ensures Contains(a, w) || Contains(b, w) || c in w
  {
    var s := a + [c] + b;
    var i :| 0 <= i <= |s| && w <= s[i..];
    if i + |w| <= |a| {
      assert w <= a[i..] by {
        forall j | 0 <= j < |w| ensures w[j] == a[i..][j] {
          assert w[j] == s[i + j];
        }
      }
    } else if i > |a| {
      var k := i - |a| - 1;
      assert w <= b[k..] by {
        forall j | 0 <= j < |w| ensures j < |b[k..]| && w[j] == b[k..][j] {
          assert w[j] == s[i + j];
        }
      }
    } else {
      assert w[|a| - i] == s[|a|] == c;
    }
  }
}
