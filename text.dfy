/**
 * The string operations of Python that the password service relies on:
 * `lower`, `upper`, `capitalize`, `isspace`, `rstrip`, `in` (substring),
 * `replace` and the last piece of `split`.
 *
 * Case mapping is ASCII only: letters outside `A`-`Z` and `a`-`z` are left as
 * they are. Whitespace is the full set of code points Python's `str.isspace`
 * accepts.
 */
module Text {

  predicate IsUpperChar(c: char) { 'A' <= c <= 'Z' }

  predicate IsLowerChar(c: char) { 'a' <= c <= 'z' }

  /** `c.lower()` for one character. */
  function LowerChar(c: char): (r: char)
    ensures IsUpperChar(c) ==> IsLowerChar(r)
    ensures !IsUpperChar(c) ==> r == c
    ensures !IsUpperChar(r)
  {
    if IsUpperChar(c) then (c as int + 32) as char else c
  }

  /** `c.upper()` for one character. */
  function UpperChar(c: char): (r: char)
    ensures IsLowerChar(c) ==> IsUpperChar(r)
    ensures !IsLowerChar(c) ==> r == c
    ensures !IsLowerChar(r)
  {
    if IsLowerChar(c) then (c as int - 32) as char else c
  }

  /** Lower- and upper-casing a letter undo each other. */
  lemma CaseRoundTrip(c: char)
    ensures IsUpperChar(c) ==> UpperChar(LowerChar(c)) == c
    ensures IsLowerChar(c) ==> LowerChar(UpperChar(c)) == c
  {
  }

  /** `s.lower()`: every upper-case letter moved to lower case, everything else kept. */
  function Lower(s: string): (r: string)
    ensures |r| == |s|
    ensures forall i :: 0 <= i < |s| ==> !IsUpperChar(r[i])
    ensures forall i :: 0 <= i < |s| && !IsUpperChar(s[i]) ==> r[i] == s[i]
    ensures forall i :: 0 <= i < |s| && IsUpperChar(s[i]) ==> r[i] as int == s[i] as int + 32
  {
    seq(|s|, i requires 0 <= i < |s| => LowerChar(s[i]))
  }

  /** `s.upper()`: every lower-case letter moved to upper case, everything else kept. */
  function Upper(s: string): (r: string)
    ensures |r| == |s|
    ensures forall i :: 0 <= i < |s| ==> !IsLowerChar(r[i])
    ensures forall i :: 0 <= i < |s| && !IsLowerChar(s[i]) ==> r[i] == s[i]
    ensures forall i :: 0 <= i < |s| && IsLowerChar(s[i]) ==> r[i] as int == s[i] as int - 32
  {
    seq(|s|, i requires 0 <= i < |s| => UpperChar(s[i]))
  }

  /** `s.lower() == s` exactly when `s` has no upper-case letter. */
  lemma LowerFixedIff(s: string)
    ensures Lower(s) == s <==> forall i :: 0 <= i < |s| ==> !IsUpperChar(s[i])
  {
    if forall i :: 0 <= i < |s| ==> !IsUpperChar(s[i]) {
      assert forall i :: 0 <= i < |s| ==> Lower(s)[i] == s[i];
    } else {
      var i :| 0 <= i < |s| && IsUpperChar(s[i]);
      assert Lower(s)[i] != s[i];
    }
  }

  /** `s.upper() == s` exactly when `s` has no lower-case letter. */
  lemma UpperFixedIff(s: string)
    ensures Upper(s) == s <==> forall i :: 0 <= i < |s| ==> !IsLowerChar(s[i])
  {
    if forall i :: 0 <= i < |s| ==> !IsLowerChar(s[i]) {
      assert forall i :: 0 <= i < |s| ==> Upper(s)[i] == s[i];
    } else {
      var i :| 0 <= i < |s| && IsLowerChar(s[i]);
      assert Upper(s)[i] != s[i];
    }
  }

  lemma LowerAppend(a: string, b: string)
    ensures Lower(a + b) == Lower(a) + Lower(b)
  {
    assert forall i :: 0 <= i < |a + b| ==> Lower(a + b)[i] == (Lower(a) + Lower(b))[i];
  }

  lemma LowerIdempotent(s: string)
    ensures Lower(Lower(s)) == Lower(s)
  {
    LowerFixedIff(Lower(s));
  }

  /** Whitespace as Python's `str.isspace` and `str.rstrip` see it. */
  predicate IsWhite(c: char) {
    var n := c as int;
    (0x09 <= n <= 0x0D) || (0x1C <= n <= 0x20) || n == 0x85 || n == 0xA0 || n == 0x1680
    || (0x2000 <= n <= 0x200A) || n == 0x2028 || n == 0x2029 || n == 0x202F || n == 0x205F
    || n == 0x3000
  }

  /**
   * `s.isspace()`: true for a non-empty string of whitespace only, that is,
   * exactly the non-empty strings `rstrip` empties.
   */
  predicate IsSpace(s: string)
    ensures IsSpace(s) <==> s != [] && RStrip(s) == []
  {
    |s| > 0 && forall i :: 0 <= i < |s| ==> IsWhite(s[i])
  }

  /** `s.rstrip()`: `s` without its trailing whitespace. */
  function RStrip(s: string): (r: string)
    ensures |r| <= |s| && r == s[..|r|]
    ensures r == [] || !IsWhite(r[|r| - 1])
    ensures forall i :: |r| <= i < |s| ==> IsWhite(s[i])
  {
    if |s| > 0 && IsWhite(s[|s| - 1]) then RStrip(s[..|s| - 1]) else s
  }

  /** A line that is not blank keeps something once its trailing whitespace is gone. */
  lemma RStripNotBlank(s: string)
    requires s != [] && !IsSpace(s)
    ensures RStrip(s) != []
  {
  }

  /** `sub` occurs in `s` starting at index `i`. */
  predicate OccursAt(s: string, sub: string, i: nat) {
    i + |sub| <= |s| && s[i..i + |sub|] == sub
  }

  /** Python's `sub in s` on strings: the empty string is in every string, and nothing longer than `s` is in it. */
  predicate Contains(s: string, sub: string)
    ensures sub == [] ==> Contains(s, sub)
    ensures Contains(s, sub) ==> |sub| <= |s|
  {
    assert sub == [] ==> OccursAt(s, sub, 0);
    exists i: nat :: i <= |s| && OccursAt(s, sub, i)
  }

  lemma OccursAtShift(s: string, sub: string, i: nat)
    requires |s| > 0
    ensures OccursAt(s[1..], sub, i) <==> OccursAt(s, sub, i + 1)
  {
    if i + 1 + |sub| <= |s| {
      assert s[1..][i..i + |sub|] == s[i + 1..i + 1 + |sub|];
    }
  }

  /** An occurrence survives putting text on either side. */
  lemma ContainsWithin(a: string, s: string, b: string, sub: string)
    requires Contains(s, sub)
    ensures Contains(a + s + b, sub)
  {
    var i: nat :| i <= |s| && OccursAt(s, sub, i);
    assert (a + s + b)[|a| + i..|a| + i + |sub|] == s[i..i + |sub|];
    assert OccursAt(a + s + b, sub, |a| + i);
  }

  /**
   * `s.replace(pat, rep)`: every occurrence of `pat` found by a left-to-right
   * scan is replaced by `rep`; the replacement text is not scanned again.
   */
  function Replace(s: string, pat: string, rep: string): string
    requires pat != []
    decreases |s|
  {
    if |s| < |pat| then s
    else if s[..|pat|] == pat then rep + Replace(s[|pat|..], pat, rep)
    else [s[0]] + Replace(s[1..], pat, rep)
  }

  /** A string without the pattern is left as it is. */
  lemma {:induction false} ReplaceAbsent(s: string, pat: string, rep: string)
    requires pat != [] && !Contains(s, pat)
    ensures Replace(s, pat, rep) == s
  {
    if |s| >= |pat| {
      assert !OccursAt(s, pat, 0);
      assert s[..|pat|] != pat;
      if !Contains(s[1..], pat) {
        ReplaceAbsent(s[1..], pat, rep);
      } else {
        var i: nat :| i <= |s[1..]| && OccursAt(s[1..], pat, i);
        OccursAtShift(s, pat, i);
        assert false;
      }
    }
  }

  /**
   * The single occurrence of the pattern after a prefix `a` (no occurrence
   * starting inside `a`) and before a tail `b` without it is replaced, and
   * nothing else changes.
   */
  lemma {:induction false} ReplaceOnce(a: string, pat: string, b: string, rep: string)
    requires pat != []
    requires forall i: nat :: i < |a| ==> !OccursAt(a + pat, pat, i)
    requires !Contains(b, pat)
    ensures Replace(a + pat + b, pat, rep) == a + rep + b
  {
    var s := a + pat + b;
    if a == [] {
      assert s == pat + b;
      ReplaceAtHead(pat, b, rep);
    } else {
      assert s[..|pat|] != pat by {
        assert !OccursAt(a + pat, pat, 0);
        assert s[..|pat|] == (a + pat)[..|pat|];
      }
      NoEarlyMatchTail(a, pat);
      ReplaceOnce(a[1..], pat, b, rep);
      assert s[1..] == a[1..] + pat + b;
      assert [s[0]] + (a[1..] + rep + b) == a + rep + b;
    }
  }

  /** The pattern at the head of a tail without it is replaced once. */
  lemma ReplaceAtHead(pat: string, b: string, rep: string)
    requires pat != [] && !Contains(b, pat)
    ensures Replace(pat + b, pat, rep) == rep + b
  {
    var s := pat + b;
    assert s[..|pat|] == pat && s[|pat|..] == b;
    ReplaceAbsent(b, pat, rep);
  }

  /** Dropping the first character of `a` keeps the pattern from starting inside it. */
  lemma NoEarlyMatchTail(a: string, pat: string)
    requires a != []
    requires forall i: nat :: i < |a| ==> !OccursAt(a + pat, pat, i)
    ensures forall i: nat :: i < |a[1..]| ==> !OccursAt(a[1..] + pat, pat, i)
  {
    assert a[1..] + pat == (a + pat)[1..];
    forall i: nat | i < |a[1..]|
      ensures !OccursAt(a[1..] + pat, pat, i)
    {
      OccursAtShift(a + pat, pat, i);
    }
  }

  /**
   * `replace` substitutes every occurrence: the first occurrence, after a
   * prefix `a` in which the pattern does not start, is replaced and the scan
   * goes on after it.
   */
  lemma {:induction false} ReplaceFirst(a: string, pat: string, b: string, rep: string)
    requires pat != []
    requires forall i: nat :: i < |a| ==> !OccursAt(a + pat, pat, i)
    ensures Replace(a + pat + b, pat, rep) == a + rep + Replace(b, pat, rep)
  {
    var s := a + pat + b;
    if a == [] {
      assert s == pat + b;
      assert s[..|pat|] == pat && s[|pat|..] == b;
    } else {
      assert s[..|pat|] != pat by {
        assert !OccursAt(a + pat, pat, 0);
        assert s[..|pat|] == (a + pat)[..|pat|];
      }
      NoEarlyMatchTail(a, pat);
      ReplaceFirst(a[1..], pat, b, rep);
      assert s[1..] == a[1..] + pat + b;
      assert [s[0]] + (a[1..] + rep + Replace(b, pat, rep)) == a + rep + Replace(b, pat, rep);
    }
  }

  /**
   * Where the last piece of `s.split(sep)` starts: the scan of `split` goes
   * on from `i`, and `start` is where the current piece began. A separator
   * found at `i` ends the piece and the scan resumes after it.
   */
  function PieceStart(s: string, sep: string, i: nat, start: nat): (p: nat)
    requires sep != [] && start <= i <= |s|
    ensures start <= p <= |s|
    decreases |s| - i
  {
    if i + |sep| > |s| then start
    else if s[i..i + |sep|] == sep then PieceStart(s, sep, i + |sep|, i + |sep|)
    else PieceStart(s, sep, i + 1, start)
  }

  /**
   * `s.split(sep)[-1]`: the text after the last separator found by the
   * left-to-right scan of `split`, or `s` itself when there is none.
   *
   * The body follows that scan for every separator. The contract, with
   * `LastPieceClean` and `LastPieceAfterSep`, determines the result only for
   * a separator that cannot overlap itself: for `"aa"` in `"aaa"` both `"a"`
   * (the scan's answer) and `""` fit those facts. The marker
   * `check_password_restrictions: ` cannot overlap itself, so the restriction
   * text is fully determined.
   */
  function LastPiece(s: string, sep: string): (r: string)
    requires sep != []
    ensures |r| <= |s| && r == s[|s| - |r|..]
  {
    s[PieceStart(s, sep, 0, 0)..]
  }

  /** Index `p` of `s` is its start or comes right after an occurrence of `sep`. */
  predicate FollowsSep(s: string, sep: string, p: nat) {
    p == 0 || (p >= |sep| && OccursAt(s, sep, p - |sep|))
  }

  /** A piece that does not start at the beginning starts right after a separator. */
  lemma {:induction false} PieceStartAfterSep(s: string, sep: string, i: nat, start: nat)
    requires sep != [] && start <= i <= |s|
    requires FollowsSep(s, sep, start)
    ensures FollowsSep(s, sep, PieceStart(s, sep, i, start))
    decreases |s| - i
  {
    if i + |sep| <= |s| {
      if s[i..i + |sep|] == sep {
        assert OccursAt(s, sep, (i + |sep|) - |sep|);
        PieceStartAfterSep(s, sep, i + |sep|, i + |sep|);
      } else {
        PieceStartAfterSep(s, sep, i + 1, start);
      }
    }
  }

  /** The scan finds no separator from the start of the last piece on. */
  lemma {:induction false} PieceStartClean(s: string, sep: string, i: nat, start: nat)
    requires sep != [] && start <= i <= |s|
    requires forall j: nat :: start <= j < i ==> !OccursAt(s, sep, j)
    ensures forall j: nat :: PieceStart(s, sep, i, start) <= j ==> !OccursAt(s, sep, j)
    decreases |s| - i
  {
    if i + |sep| <= |s| {
      if s[i..i + |sep|] == sep {
        PieceStartClean(s, sep, i + |sep|, i + |sep|);
      } else {
        PieceStartClean(s, sep, i + 1, start);
      }
    }
  }

  /** An occurrence in a suffix of `s` is an occurrence in `s`, shifted. */
  lemma OccursInSuffix(s: string, sub: string, d: nat, i: nat)
    requires d <= |s| && OccursAt(s[d..], sub, i)
    ensures OccursAt(s, sub, d + i)
  {
    assert s[d..][i..i + |sub|] == s[d + i..d + i + |sub|];
  }

  /** The last piece holds no separator. */
  lemma LastPieceClean(s: string, sep: string)
    requires sep != []
    ensures !Contains(LastPiece(s, sep), sep)
  {
    var p := PieceStart(s, sep, 0, 0);
    PieceStartClean(s, sep, 0, 0);
    forall i: nat | i <= |s[p..]|
      ensures !OccursAt(s[p..], sep, i)
    {
      if OccursAt(s[p..], sep, i) {
        OccursInSuffix(s, sep, p, i);
      }
    }
  }

  /** A last piece shorter than `s` comes straight after an occurrence of the separator. */
  lemma LastPieceAfterSep(s: string, sep: string)
    requires sep != []
    ensures var r := LastPiece(s, sep);
      |r| < |s| ==> |s| - |r| >= |sep| && OccursAt(s, sep, |s| - |r| - |sep|)
  {
    PieceStartAfterSep(s, sep, 0, 0);
  }

  /** With no separator in `s`, the last piece is the whole string. */
  lemma LastPieceAbsent(s: string, sep: string)
    requires sep != [] && !Contains(s, sep)
    ensures LastPiece(s, sep) == s
  {
    PieceStartAfterSep(s, sep, 0, 0);
    assert s[0..] == s;
  }

  /**
   * `s.capitalize()`: the first character upper-cased, the rest lower-cased.
   * The result differs from `s` in letter case only.
   */
  function Capitalize(s: string): (r: string)
    ensures |r| == |s|
    ensures |s| > 0 ==> !IsLowerChar(r[0])
    ensures forall i :: 1 <= i < |r| ==> !IsUpperChar(r[i])
    ensures Lower(r) == Lower(s)
  {
    if s == [] then []
    else
      var r := [UpperChar(s[0])] + Lower(s[1..]);
      assert forall i :: 0 <= i < |r| ==> Lower(r)[i] == Lower(s)[i] by {
        forall i | 0 <= i < |r|
          ensures Lower(r)[i] == Lower(s)[i]
        {
          if i > 0 {
            assert r[i] == LowerChar(s[i]);
          }
        }
      }
      r
  }
}
