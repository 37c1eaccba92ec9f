/** The three JavaScript string built-ins the relay relies on:
    `toLowerCase`, `includes` and `trim`. */
module JsString {

  /** Lower-cases one character. ASCII 'A'..'Z' map to 'a'..'z'; U+212A KELVIN SIGN
      maps to ASCII 'k', as in Unicode's case mapping. Every other character is kept. */
  function LowerChar(c: char): (r: char)
    ensures 'A' <= c <= 'Z' ==> r as int == c as int + 32
    ensures c == '\U{212A}' ==> r == 'k'
    ensures r != c ==> ('A' <= c <= 'Z' || c == '\U{212A}')
    ensures !('A' <= r <= 'Z')
  {
    if 'A' <= c <= 'Z' then (c as int + 32) as char
    else if c == '\U{212A}' then 'k'
    else c
  }

  /** Upper-cases one ASCII letter; every other character is kept. */
  function UpperChar(c: char): (r: char)
    ensures 'a' <= c <= 'z' ==> r as int == c as int - 32
    ensures r != c ==> 'a' <= c <= 'z'
  {
    if 'a' <= c <= 'z' then (c as int - 32) as char else c
  }

  /** `String.prototype.toLowerCase`, character by character. */
  function Lower(s: string): (r: string)
    ensures |r| == |s|
    ensures forall i :: 0 <= i < |s| ==> r[i] == LowerChar(s[i])
  {
    seq(|s|, i requires 0 <= i < |s| => LowerChar(s[i]))
  }

  /** ASCII `toUpperCase`, used only to state that the guard ignores case. */
  function Upper(s: string): (r: string)
    ensures |r| == |s|
    ensures forall i :: 0 <= i < |s| ==> r[i] == UpperChar(s[i])
  {
    seq(|s|, i requires 0 <= i < |s| => UpperChar(s[i]))
  }

  /** Two strings that differ only in the case of their letters. */
  ghost predicate SameIgnoringCase(a: string, b: string)
  {
    |a| == |b| && forall i :: 0 <= i < |a| ==> LowerChar(a[i]) == LowerChar(b[i])
  }

  lemma LowerIdempotent(s: string)
    ensures Lower(Lower(s)) == Lower(s)
  {
    assert forall i :: 0 <= i < |s| ==> Lower(Lower(s))[i] == Lower(s)[i];
  }

  lemma LowerSlice(s: string, i: int, j: int)
    requires 0 <= i <= j <= |s|
    ensures Lower(s)[i..j] == Lower(s[i..j])
  {
  }

  lemma SameIgnoringCaseLower(a: string, b: string)
    requires SameIgnoringCase(a, b)
    ensures Lower(a) == Lower(b)
  {
    assert forall i :: 0 <= i < |a| ==> Lower(a)[i] == Lower(b)[i];
  }

  /** Upper-casing and lower-casing a string give case variants of it. */
  lemma CaseVariants(s: string)
    ensures SameIgnoringCase(s, Upper(s))
    ensures SameIgnoringCase(s, Lower(s))
  {
  }

  /** `t` occurs in `s` starting at index `i`. */
  ghost predicate OccursAt(t: string, s: string, i: int)
  {
    0 <= i && i + |t| <= |s| && s[i..i + |t|] == t
  }

  /** `t` is a substring of `s`. */
  ghost predicate Occurs(t: string, s: string)
  {
    exists i :: OccursAt(t, s, i)
  }

  /** `s.includes(t)`: scans `s` left to right for a position where `t` starts. */
  function Includes(s: string, t: string): (r: bool)
    decreases |s|
  {
    if |t| > |s| then false
    else if s[..|t|] == t then true
    else Includes(s[1..], t)
  }

  /** `includes` answers exactly the substring question, in both directions. */
  lemma {:induction false} IncludesIff(s: string, t: string)
    ensures Includes(s, t) <==> Occurs(t, s)
    decreases |s|
  {
    if |t| > |s| {
    } else if s[..|t|] == t {
      assert OccursAt(t, s, 0);
    } else {
      IncludesIff(s[1..], t);
      if Includes(s[1..], t) {
        var i :| OccursAt(t, s[1..], i);
        SliceOfSlice(s, 1, i, i + |t|);
        assert OccursAt(t, s, i + 1);
      }
      if Occurs(t, s) {
        var i :| OccursAt(t, s, i);
        assert i != 0;
        SliceOfSlice(s, 1, i - 1, i - 1 + |t|);
        assert OccursAt(t, s[1..], i - 1);
      }
    }
  }

  /** A substring of a substring is a substring. */
  lemma OccursTransitive(a: string, b: string, c: string, i: int, j: int)
    requires OccursAt(a, b, i) && OccursAt(b, c, j)
    ensures OccursAt(a, c, i + j)
  {
    assert b[i..i + |a|] == c[j..j + |b|][i..i + |a|];
    forall k | 0 <= k < |a|
      ensures c[i + j..i + j + |a|][k] == a[k]
    {
      assert a[k] == b[i + k] == c[j + i + k];
    }
  }

  /** Lower-casing keeps every occurrence where it was. */
  lemma OccursAtLower(t: string, s: string, i: int)
    requires OccursAt(t, s, i)
    ensures OccursAt(Lower(t), Lower(s), i)
  {
    LowerSlice(s, i, i + |t|);
  }

  /** The characters `trim` removes: ECMAScript's WhiteSpace and LineTerminator
      code points (tab, VT, FF, space, NBSP, BOM, the Zs category, LF, CR, LS, PS). */
  predicate IsJsSpace(c: char)
  {
    c == '\t' || c == '\U{B}' || c == '\U{C}' || c == ' ' || c == '\U{A0}' || c == '\U{FEFF}'
    || c == '\U{1680}' || ('\U{2000}' <= c <= '\U{200A}') || c == '\U{202F}' || c == '\U{205F}'
    || c == '\U{3000}' || c == '\n' || c == '\r' || c == '\U{2028}' || c == '\U{2029}'
  }

  /** How many white-space characters `s` starts with. */
  function LeadingSpace(s: string): (n: nat)
    ensures n <= |s|
    decreases |s|
  {
    if s != [] && IsJsSpace(s[0]) then 1 + LeadingSpace(s[1..]) else 0
  }

  /** How many white-space characters `s` ends with. */
  function TrailingSpace(s: string): (n: nat)
    ensures n <= |s|
    decreases |s|
  {
    if s != [] && IsJsSpace(s[|s| - 1]) then 1 + TrailingSpace(s[..|s| - 1]) else 0
  }

  /** `String.prototype.trim`: cut the leading, then the trailing white space. */
  function Trim(s: string): string
  {
    var t := s[LeadingSpace(s)..];
    t[..|t| - TrailingSpace(t)]
  }

  /** `LeadingSpace` counts exactly the white space before the first other character. */
  lemma {:induction false} LeadingSpaceSpec(s: string)
    ensures forall k :: 0 <= k < LeadingSpace(s) ==> IsJsSpace(s[k])
    ensures LeadingSpace(s) == |s| || !IsJsSpace(s[LeadingSpace(s)])
    decreases |s|
  {
    if s != [] && IsJsSpace(s[0]) {
      LeadingSpaceSpec(s[1..]);
      forall k | 0 <= k < LeadingSpace(s)
        ensures IsJsSpace(s[k])
      {
        if k > 0 {
          assert s[k] == s[1..][k - 1];
        }
      }
    }
  }

  /** `TrailingSpace` counts exactly the white space after the last other character. */
  lemma {:induction false} TrailingSpaceSpec(s: string)
    ensures forall k :: |s| - TrailingSpace(s) <= k < |s| ==> IsJsSpace(s[k])
    ensures TrailingSpace(s) == |s| || !IsJsSpace(s[|s| - 1 - TrailingSpace(s)])
    decreases |s|
  {
    if s != [] && IsJsSpace(s[|s| - 1]) {
      var p := s[..|s| - 1];
      TrailingSpaceSpec(p);
      forall k | |s| - TrailingSpace(s) <= k < |s|
        ensures IsJsSpace(s[k])
      {
        if k < |s| - 1 {
          assert s[k] == p[k];
        }
      }
      if TrailingSpace(s) < |s| {
        assert s[|s| - 1 - TrailingSpace(s)] == p[|p| - 1 - TrailingSpace(p)];
      }
    }
  }

  /** `r` is what is left of `s` once white space is cut: `i` characters in front
      and all the rest after `r`. */
  ghost predicate TrimmedAt(s: string, r: string, i: int)
  {
    0 <= i <= |s| - |r| && r == s[i..i + |r|]
    && (forall k :: 0 <= k < i ==> IsJsSpace(s[k]))
    && (forall k :: i + |r| <= k < |s| ==> IsJsSpace(s[k]))
  }

  /** `trim` returns the slice of `s` left after removing white space at both ends,
      and that slice neither starts nor ends with white space. */
  lemma TrimSpec(s: string)
    ensures TrimmedAt(s, Trim(s), LeadingSpace(s))
    ensures Trim(s) == [] || (!IsJsSpace(Trim(s)[0]) && !IsJsSpace(Trim(s)[|Trim(s)| - 1]))
  {
    var i := LeadingSpace(s);
    var t := s[i..];
    var r := Trim(s);
    LeadingSpaceSpec(s);
    TrailingSpaceSpec(t);
    SliceOfSlice(s, i, 0, |r|);
    forall k | i + |r| <= k < |s|
      ensures IsJsSpace(s[k])
    {
      assert s[k] == t[k - i];
    }
    if r != [] {
      assert r[0] == s[i];
      assert r[|r| - 1] == t[|t| - 1 - TrailingSpace(t)];
    }
  }

  /** Slicing a suffix is slicing the whole. */
  lemma SliceOfSlice(s: string, a: int, i: int, j: int)
    requires 0 <= a <= |s| && 0 <= i <= j <= |s| - a
    ensures s[a..][i..j] == s[a + i..a + j]
  {
    forall k | 0 <= k < j - i
      ensures s[a..][i..j][k] == s[a + i..a + j][k]
    {
      assert s[a..][i..j][k] == s[a + i + k];
    }
  }

  /** Trimming twice trims nothing more. */
  lemma TrimIdempotent(s: string)
    ensures Trim(Trim(s)) == Trim(s)
  {
    TrimSpec(s);
    var r := Trim(s);
    assert LeadingSpace(r) == 0;
    assert r[0..] == r;
    assert TrailingSpace(r) == 0;
  }
}
