/** Python's `str.replace(old, new)` on character strings: every occurrence of a
    pattern, scanned from the left and never overlapping, is replaced.  Both the
    set-definition resolver and the epsilon stripper are built on it. */
module StrReplace {

  /** `p` occurs somewhere in `s` (the empty pattern occurs everywhere). */
  predicate Occurs(p: string, s: string)
    decreases |s|
  {
    |p| <= |s| && (s[..|p|] == p || (|s| > 0 && Occurs(p, s[1..])))
  }

  /** `s.replace(p, r)`.  With an empty pattern Python inserts `r` before every
      character and once at the end. */
  function ReplaceAll(s: string, p: string, r: string): string
    decreases |s|
  {
    if |p| == 0 then
      if |s| == 0 then r else r + [s[0]] + ReplaceAll(s[1..], p, r)
    else if |s| < |p| then s
    else if s[..|p|] == p then r + ReplaceAll(s[|p|..], p, r)
    else [s[0]] + ReplaceAll(s[1..], p, r)
  }

  /** Replacing with something longer never shortens the string, replacing with
      something shorter never lengthens it, and an occurrence makes either strict. */
  lemma {:induction false} ReplaceAllLength(s: string, p: string, r: string)
    ensures |r| >= |p| ==> |ReplaceAll(s, p, r)| >= |s|
    ensures |r| <= |p| ==> |ReplaceAll(s, p, r)| <= |s|
    ensures Occurs(p, s) && |r| > |p| ==> |ReplaceAll(s, p, r)| > |s|
    ensures Occurs(p, s) && |r| < |p| ==> |ReplaceAll(s, p, r)| < |s|
    decreases |s|
  {
    if |p| == 0 {
      if |s| > 0 {
        ReplaceAllLength(s[1..], p, r);
      }
    } else if |s| < |p| {
    } else if s[..|p|] == p {
      ReplaceAllLength(s[|p|..], p, r);
    } else {
      ReplaceAllLength(s[1..], p, r);
    }
  }

  /** Without an occurrence of the pattern nothing is replaced. */
  lemma {:induction false} ReplaceAllAbsent(s: string, p: string, r: string)
    requires !Occurs(p, s)
    ensures ReplaceAll(s, p, r) == s
    decreases |s|
  {
    if |s| >= |p| {
      ReplaceAllAbsent(s[1..], p, r);
    }
  }

  /** Replacing a pattern by itself changes nothing. */
  lemma {:induction false} ReplaceAllIdentity(s: string, p: string)
    ensures ReplaceAll(s, p, p) == s
    decreases |s|
  {
    if |p| == 0 {
      if |s| > 0 {
        ReplaceAllIdentity(s[1..], p);
        assert s == [s[0]] + s[1..];
      }
    } else if |s| < |p| {
    } else if s[..|p|] == p {
      ReplaceAllIdentity(s[|p|..], p);
      assert s == s[..|p|] + s[|p|..];
    } else {
      ReplaceAllIdentity(s[1..], p);
      assert s == [s[0]] + s[1..];
    }
  }

  /** With a replacement of the same length, an occurrence always leaves a mark. */
  lemma {:induction false} ReplaceAllSameLengthChanges(s: string, p: string, r: string)
    requires |r| == |p| && r != p && Occurs(p, s)
    ensures ReplaceAll(s, p, r) != s
    decreases |s|
  {
    if s[..|p|] == p {
      var x := ReplaceAll(s, p, r);
      assert x[..|p|] == r;
    } else {
      ReplaceAllSameLengthChanges(s[1..], p, r);
      var x := ReplaceAll(s, p, r);
      assert x == [s[0]] + ReplaceAll(s[1..], p, r);
      assert x[1..] == ReplaceAll(s[1..], p, r);
    }
  }

  /** `s.replace(p, r) == s` exactly when `p` does not occur in `s` or `r` is `p`:
      the test the set-definition resolver uses to detect a substitution. */
  lemma {:induction false} ReplaceAllUnchanged(s: string, p: string, r: string)
    ensures ReplaceAll(s, p, r) == s <==> !Occurs(p, s) || r == p
  {
    if !Occurs(p, s) {
      ReplaceAllAbsent(s, p, r);
    } else if r == p {
      ReplaceAllIdentity(s, p);
    } else if |r| == |p| {
      ReplaceAllSameLengthChanges(s, p, r);
    } else {
      ReplaceAllLength(s, p, r);
    }
  }

  /** A whole string equal to the pattern is replaced by `r`. */
  lemma ReplaceAllWhole(p: string, r: string)
    ensures ReplaceAll(p, p, r) == r
  {
  }

  /** A prefix without the pattern's first character is copied through untouched. */
  lemma {:induction false} ReplaceAllSkipPrefix(s: string, t: string, p: string, r: string)
    requires |p| > 0 && p[0] !in s
    ensures ReplaceAll(s + t, p, r) == s + ReplaceAll(t, p, r)
    decreases |s|
  {
    if |s| > 0 {
      var u := s + t;
      assert u[1..] == s[1..] + t;
      ReplaceAllSkipPrefix(s[1..], t, p, r);
      if |u| < |p| {
        assert ReplaceAll(t, p, r) == t;
        assert ReplaceAll(u, p, r) == u;
      } else {
        assert u[..|p|][0] == s[0] != p[0];
        calc {
          ReplaceAll(u, p, r);
          [s[0]] + ReplaceAll(s[1..] + t, p, r);
          [s[0]] + (s[1..] + ReplaceAll(t, p, r));
          ([s[0]] + s[1..]) + ReplaceAll(t, p, r);
        }
      }
      assert s == [s[0]] + s[1..];
    } else {
      assert s + t == t;
    }
  }

  /** A string without the pattern's first character contains no occurrence. */
  lemma {:induction false} AbsentFirstChar(s: string, p: string)
    requires |p| > 0 && p[0] !in s
    ensures !Occurs(p, s)
    decreases |s|
  {
    if |s| >= |p| {
      assert s[..|p|][0] == s[0];
      AbsentFirstChar(s[1..], p);
    }
  }

  /** A single occurrence between two strings free of the pattern's first
      character is the only thing replaced. */
  lemma {:induction false} ReplaceAllJoin(s: string, t: string, p: string, r: string)
    requires |p| > 0 && p[0] !in s && p[0] !in t
    ensures ReplaceAll(s + p + t, p, r) == s + r + t
  {
    ReplaceAllSkipPrefix(s, p + t, p, r);
    assert s + p + t == s + (p + t);
    var u := p + t;
    assert u[..|p|] == p && u[|p|..] == t;
    AbsentFirstChar(t, p);
    ReplaceAllAbsent(t, p, r);
  }

  /** An occurrence at the very start with less than a pattern's length after
      it is the only thing replaced. */
  lemma {:induction false} ReplaceAllLeading(p: string, y: string, r: string)
    requires |p| > 0 && |y| < |p|
    ensures ReplaceAll(p + y, p, r) == r + y
  {
    var u := p + y;
    assert u[..|p|] == p;
    assert u[|p|..] == y;
  }

  /** In a pattern whose second character differs from its first, an occurrence
      one character in, with less than a pattern's length after it, is the only
      thing replaced: the scan cannot match at the very start. */
  lemma {:induction false} ReplaceAllMissThenJoin(c: char, y: string, p: string, r: string)
    requires |p| > 1 && p[1] != p[0] && |y| < |p|
    ensures ReplaceAll([c] + p + y, p, r) == [c] + r + y
  {
    var u := p + y;
    var s := [c] + u;
    assert s[1] == p[0];
    assert s[..|p|][1] == s[1];
    assert s[1..] == u;
    ReplaceAllLeading(p, y, r);
    calc {
      ReplaceAll([c] + p + y, p, r);
      { assert [c] + p + y == s; }
      ReplaceAll(s, p, r);
      [c] + ReplaceAll(u, p, r);
    }
  }
}
