/**
 * String helpers with the semantics of the JavaScript String methods that the
 * storage engine relies on: trim, indexOf, includes, startsWith, split with a
 * string separator, Array.join and an ASCII-only toLowerCase.
 */
module Text {

  /** The characters String.prototype.trim removes: ECMAScript WhiteSpace and LineTerminator. */
  predicate IsSpace(c: char) {
    var n := c as int;
    n == 0x09 || n == 0x0A || n == 0x0B || n == 0x0C || n == 0x0D || n == 0x20 ||
    n == 0xA0 || n == 0x1680 || (0x2000 <= n <= 0x200A) || n == 0x2028 || n == 0x2029 ||
    n == 0x202F || n == 0x205F || n == 0x3000 || n == 0xFEFF
  }

  /** A string that trim() leaves unchanged. */
  predicate IsTrimmed(s: string) {
    s == [] || (!IsSpace(s[0]) && !IsSpace(s[|s| - 1]))
  }

  /** String.prototype.trim: white space removed from both ends. */
  function Trim(s: string): (r: string)
    ensures IsTrimmed(r)
    ensures forall c :: c in r ==> c in s
    decreases |s|
  {
    if s == [] then []
    else if IsSpace(s[0]) then Trim(s[1..])
    else if IsSpace(s[|s| - 1]) then Trim(s[..|s| - 1])
    else s
  }

  /** trim() returns the slice between the leading and the trailing white space. */
  lemma {:induction false} TrimBounds(s: string) returns (a: nat, b: nat)
    ensures a <= b <= |s| && Trim(s) == s[a..b]
    ensures forall i :: 0 <= i < a ==> IsSpace(s[i])
    ensures forall i :: b <= i < |s| ==> IsSpace(s[i])
    decreases |s|
  {
    if s == [] {
      a, b := 0, 0;
    } else if IsSpace(s[0]) {
      var a1, b1 := TrimBounds(s[1..]);
      a, b := a1 + 1, b1 + 1;
      assert s[a..b] == s[1..][a1..b1];
      forall i | 0 <= i < a ensures IsSpace(s[i]) {
        if i > 0 { assert s[i] == s[1..][i - 1]; }
      }
      forall i | b <= i < |s| ensures IsSpace(s[i]) {
        assert s[i] == s[1..][i - 1];
      }
    } else if IsSpace(s[|s| - 1]) {
      var a1, b1 := TrimBounds(s[..|s| - 1]);
      a, b := a1, b1;
      assert s[a..b] == s[..|s| - 1][a1..b1];
      forall i | b <= i < |s| ensures IsSpace(s[i]) {
        if i < |s| - 1 { assert s[i] == s[..|s| - 1][i]; }
      }
    } else {
      a, b := 0, |s|;
    }
  }

  /** Trimming a string that has no surrounding white space changes nothing. */
  lemma TrimOfTrimmed(s: string)
    requires IsTrimmed(s)
    ensures Trim(s) == s
  {
  }

  /** A blank string (trim() gives "") consists of white space only. */
  lemma {:induction false} BlankIsAllSpace(s: string)
    ensures Trim(s) == [] ==> forall i :: 0 <= i < |s| ==> IsSpace(s[i])
    decreases |s|
  {
    if s != [] && IsSpace(s[0]) {
      BlankIsAllSpace(s[1..]);
      assert forall i :: 1 <= i < |s| ==> s[i] == s[1..][i - 1];
    } else if s != [] && IsSpace(s[|s| - 1]) {
      BlankIsAllSpace(s[..|s| - 1]);
    }
  }

  /** A string with one non-white-space character is not blank. */
  lemma NotBlank(s: string, i: int)
    requires 0 <= i < |s| && !IsSpace(s[i])
    ensures Trim(s) != []
  {
    BlankIsAllSpace(s);
  }

  /** One white-space character in front of a string does not survive trim(). */
  lemma TrimLeadingSpace(c: char, s: string)
    requires IsSpace(c)
    ensures Trim([c] + s) == Trim(s)
  {
    assert ([c] + s)[1..] == s;
  }

  /** One white-space character behind a string does not survive trim(). */
  lemma {:induction false} TrimTrailingSpace(s: string, c: char)
    requires IsSpace(c)
    ensures Trim(s + [c]) == Trim(s)
    decreases |s|
  {
    if s == [] {
      assert [] + [c] == [c];
    } else if IsSpace(s[0]) {
      assert (s + [c])[1..] == s[1..] + [c];
      TrimTrailingSpace(s[1..], c);
    } else {
      assert (s + [c])[..|s|] == s;
    }
  }

  lemma TrimWrappedRight(c1: char, s: string, c2: char)
    requires IsSpace(c1) && IsSpace(c2) && IsTrimmed(s)
    ensures Trim([c1] + (s + [c2])) == s
  {
    TrimLeadingSpace(c1, s + [c2]);
    TrimTrailingSpace(s, c2);
    TrimOfTrimmed(s);
  }

  lemma ConcatAssoc(a: string, b: string, c: string)
    ensures a + b + c == a + (b + c)
  {
  }

  /** trim() of a trimmed string wrapped in two white-space characters. */
  lemma TrimWrapped(c1: char, s: string, c2: char)
    requires IsSpace(c1) && IsSpace(c2) && IsTrimmed(s)
    ensures Trim([c1] + s + [c2]) == s
  {
    TrimWrappedRight(c1, s, c2);
    ConcatAssoc([c1], s, [c2]);
  }

  /** String.prototype.startsWith. */
  predicate StartsWith(s: string, p: string) {
    |p| <= |s| && s[..|p|] == p
  }

  /** The pattern occurs in s at position i. */
  predicate OccursAt(s: string, pat: string, i: int) {
    0 <= i && i + |pat| <= |s| && s[i..i + |pat|] == pat
  }

  /** The pattern occurs nowhere in s. */
  ghost predicate Absent(s: string, pat: string) {
    forall i :: !OccursAt(s, pat, i)
  }

  function IndexFrom(s: string, pat: string, k: nat): (r: int)
    requires k <= |s|
    ensures r == -1 || (k <= r && OccursAt(s, pat, r))
    ensures r == -1 ==> forall j :: k <= j ==> !OccursAt(s, pat, j)
    ensures r != -1 ==> forall j :: k <= j < r ==> !OccursAt(s, pat, j)
    decreases |s| - k
  {
    if k + |pat| > |s| then -1
    else if s[k..k + |pat|] == pat then k
    else if k == |s| then -1
    else IndexFrom(s, pat, k + 1)
  }

  /** String.prototype.indexOf: the first position of pat in s, or -1. */
  function IndexOf(s: string, pat: string): (r: int)
    ensures r == -1 <==> Absent(s, pat)
    ensures r != -1 ==> OccursAt(s, pat, r) && forall j :: 0 <= j < r ==> !OccursAt(s, pat, j)
  {
    IndexFrom(s, pat, 0)
  }

  /** String.prototype.includes. */
  predicate Includes(s: string, pat: string) {
    IndexOf(s, pat) != -1
  }

  /** A one-character pattern is absent exactly when the character is. */
  lemma CharOccurs(s: string, c: char)
    ensures Absent(s, [c]) <==> c !in s
  {
    forall i ensures OccursAt(s, [c], i) <==> (0 <= i < |s| && s[i] == c) {
      if 0 <= i < |s| {
        assert s[i..i + 1] == [s[i]];
      }
    }
  }

  /** The window of x + y at i, when it lies inside x. */
  lemma WindowLeft(x: string, y: string, pat: string, i: int)
    requires 0 <= i && i + |pat| <= |x|
    ensures OccursAt(x + y, pat, i) == OccursAt(x, pat, i)
  {
    assert (x + y)[i..i + |pat|] == x[i..i + |pat|];
  }

  /** The window of x + y at i, when it lies inside y. */
  lemma WindowRight(x: string, y: string, pat: string, i: int)
    requires |x| <= i && i + |pat| <= |x| + |y|
    ensures OccursAt(x + y, pat, i) == OccursAt(y, pat, i - |x|)
  {
    assert (x + y)[i..i + |pat|] == y[i - |x|..i - |x| + |pat|];
  }

  /** A window of s that covers position k holds s[k] at offset k - i. */
  lemma WindowCovers(s: string, pat: string, i: int, k: int)
    requires 0 <= i <= k < i + |pat| <= |s|
    requires s[k] !in pat
    ensures !OccursAt(s, pat, i)
  {
    assert s[i..i + |pat|][k - i] == s[k];
  }

  /**
   * No occurrence of pat in x + y when there is none in x, none in y, and
   * the junction cannot be inside an occurrence because the last character
   * of x does not occur in pat.
   */
  lemma AbsentConcat(x: string, y: string, pat: string)
    requires Absent(x, pat) && Absent(y, pat)
    requires x == [] || x[|x| - 1] !in pat
    ensures Absent(x + y, pat)
  {
    forall i ensures !OccursAt(x + y, pat, i) {
      if 0 <= i && i + |pat| <= |x| + |y| {
        if i + |pat| <= |x| {
          WindowLeft(x, y, pat, i);
        } else if i >= |x| {
          WindowRight(x, y, pat, i);
        } else {
          WindowCovers(x + y, pat, i, |x| - 1);
        }
      }
    }
  }

  /** The same, when the first character of y does not occur in pat. */
  lemma AbsentConcatRight(x: string, y: string, pat: string)
    requires Absent(x, pat) && Absent(y, pat)
    requires y == [] || y[0] !in pat
    ensures Absent(x + y, pat)
  {
    forall i ensures !OccursAt(x + y, pat, i) {
      if 0 <= i && i + |pat| <= |x| + |y| {
        if i + |pat| <= |x| {
          WindowLeft(x, y, pat, i);
        } else if i >= |x| {
          WindowRight(x, y, pat, i);
        } else {
          WindowCovers(x + y, pat, i, |x|);
        }
      }
    }
  }

  /** A string shorter than the pattern cannot contain it. */
  lemma AbsentShort(s: string, pat: string)
    requires |s| < |pat|
    ensures Absent(s, pat)
  {
  }

  /** A string none of whose characters occurs in pat does not contain pat. */
  lemma AbsentForeign(s: string, pat: string)
    requires pat != []
    requires forall c :: c in s ==> c !in pat
    ensures Absent(s, pat)
  {
    forall i | 0 <= i && i + |pat| <= |s| ensures !OccursAt(s, pat, i) {
      WindowCovers(s, pat, i, i);
    }
  }

  /** An occurrence of the pattern in a slice is one in the whole string. */
  lemma AbsentSlice(s: string, pat: string, a: int, b: int)
    requires 0 <= a <= b <= |s|
    requires forall j :: a <= j && j + |pat| <= b ==> !OccursAt(s, pat, j)
    ensures Absent(s[a..b], pat)
  {
    forall i | 0 <= i && i + |pat| <= b - a ensures !OccursAt(s[a..b], pat, i) {
      var w := s[a..b][i..i + |pat|];
      assert |w| == |pat|;
      forall k | 0 <= k < |pat| ensures w[k] == s[a + i..a + i + |pat|][k] {
        assert w[k] == s[a + i + k];
      }
      assert w == s[a + i..a + i + |pat|];
      assert !OccursAt(s, pat, a + i);
    }
  }

  /** Where the first occurrence of sep lies, given what precedes it. */
  lemma FirstOccurrence(a: string, sep: string, b: string)
    requires sep != []
    requires Absent(a, sep)
    requires a == [] || a[|a| - 1] !in sep
    ensures IndexOf(a + sep + b, sep) == |a|
  {
    var s := a + sep + b;
    assert s == a + (sep + b);
    assert s[|a|..|a| + |sep|] == sep;
    assert OccursAt(s, sep, |a|);
    forall j | 0 <= j < |a| ensures !OccursAt(s, sep, j) {
      if j + |sep| <= |a| {
        WindowLeft(a, sep + b, sep, j);
      } else {
        WindowCovers(s, sep, j, |a| - 1);
      }
    }
  }

  /** String.prototype.split with a non-empty string separator. */
  function Split(s: string, sep: string): (r: seq<string>)
    requires sep != []
    ensures |r| >= 1
    ensures forall k :: 0 <= k < |r| ==> Absent(r[k], sep)
    decreases |s|
  {
    var i := IndexOf(s, sep);
    if i == -1 then [s]
    else
      AbsentSlice(s, sep, 0, i);
      assert s[0..i] == s[..i];
      [s[..i]] + Split(s[i + |sep|..], sep)
  }

  /** Array.prototype.join. */
  function Join(parts: seq<string>, sep: string): string {
    if |parts| == 0 then ""
    else if |parts| == 1 then parts[0]
    else parts[0] + sep + Join(parts[1..], sep)
  }

  /** Splitting a string whose first separator follows a. */
  lemma SplitAt(a: string, sep: string, b: string)
    requires sep != []
    requires IndexOf(a + sep + b, sep) == |a|
    ensures Split(a + sep + b, sep) == [a] + Split(b, sep)
  {
    var s := a + sep + b;
    assert s[..|a|] == a;
    assert s[|a| + |sep|..] == b;
  }

  /** Splitting at a separator that a and the junction after it cannot hold. */
  lemma SplitThrough(a: string, sep: string, b: string)
    requires sep != [] && Absent(a, sep)
    requires a == [] || a[|a| - 1] !in sep
    ensures Split(a + sep + b, sep) == [a] + Split(b, sep)
  {
    FirstOccurrence(a, sep, b);
    SplitAt(a, sep, b);
  }

  /** Splitting at a one-character separator that a does not hold. */
  lemma SplitThroughChar(a: string, c: char, b: string)
    requires c !in a
    ensures Split(a + [c] + b, [c]) == [a] + Split(b, [c])
  {
    CharOccurs(a, c);
    SplitThrough(a, [c], b);
  }

  /** Splitting a string without the separator gives the string itself. */
  lemma SplitAbsent(s: string, sep: string)
    requires sep != [] && Absent(s, sep)
    ensures Split(s, sep) == [s]
  {
  }

  /** join() undoes split(). */
  lemma {:induction false} JoinSplit(s: string, sep: string)
    requires sep != []
    ensures Join(Split(s, sep), sep) == s
    decreases |s|
  {
    var i := IndexOf(s, sep);
    if i != -1 {
      var rest := s[i + |sep|..];
      var pieces := Split(rest, sep);
      assert Split(s, sep) == [s[..i]] + pieces;
      JoinSplit(rest, sep);
      JoinCons(s[..i], pieces, sep);
      SliceThree(s, i, i + |sep|);
    }
  }

  lemma JoinCons(p: string, ps: seq<string>, sep: string)
    requires |ps| >= 1
    ensures Join([p] + ps, sep) == p + sep + Join(ps, sep)
  {
    assert ([p] + ps)[1..] == ps;
  }

  lemma SliceThree(s: string, i: int, j: int)
    requires 0 <= i <= j <= |s|
    ensures s == s[..i] + s[i..j] + s[j..]
  {
  }

  /** split() on a one-character separator undoes join() when no part holds it. */
  lemma {:induction false} SplitJoinChar(parts: seq<string>, c: char)
    requires |parts| >= 1
    requires forall k :: 0 <= k < |parts| ==> c !in parts[k]
    ensures Split(Join(parts, [c]), [c]) == parts
  {
    CharOccurs(parts[0], c);
    if |parts| == 1 {
      SplitAbsent(parts[0], [c]);
    } else {
      FirstOccurrence(parts[0], [c], Join(parts[1..], [c]));
      SplitAt(parts[0], [c], Join(parts[1..], [c]));
      SplitJoinChar(parts[1..], c);
    }
  }

  /** The first piece of a split is a prefix of the string. */
  lemma SplitFirstIsPrefix(s: string, sep: string)
    requires sep != []
    ensures StartsWith(s, Split(s, sep)[0])
  {
  }

  /** Lower-cases ASCII letters; every other character is kept. */
  function LowerChar(c: char): (r: char)
    ensures 'A' <= c <= 'Z' ==> 'a' <= r <= 'z' && r as int == c as int + 32
    ensures !('A' <= c <= 'Z') ==> r == c
  {
    if 'A' <= c <= 'Z' then (c as int + 32) as char else c
  }

  /** String.prototype.toLowerCase, restricted to ASCII letters. */
  function Lower(s: string): (r: string)
    ensures |r| == |s|
    ensures forall i :: 0 <= i < |s| ==> r[i] == LowerChar(s[i])
  {
    seq(|s|, i requires 0 <= i < |s| => LowerChar(s[i]))
  }

  /** The two strings differ at most in the case of ASCII letters. */
  predicate SameUpToCase(s: string, t: string) {
    |s| == |t| &&
    forall i :: 0 <= i < |s| ==>
      s[i] == t[i] || ('A' <= s[i] <= 'Z' && t[i] as int == s[i] as int + 32) ||
      ('A' <= t[i] <= 'Z' && s[i] as int == t[i] as int + 32)
  }

  /** Lower-casing forgets the case of ASCII letters and nothing else. */
  lemma LowerIgnoresCase(s: string, t: string)
    ensures SameUpToCase(s, t) <==> Lower(s) == Lower(t)
  {
    if Lower(s) == Lower(t) {
      forall i | 0 <= i < |s|
        ensures s[i] == t[i] || ('A' <= s[i] <= 'Z' && t[i] as int == s[i] as int + 32) ||
          ('A' <= t[i] <= 'Z' && s[i] as int == t[i] as int + 32)
      {
        assert LowerChar(s[i]) == Lower(s)[i] == Lower(t)[i] == LowerChar(t[i]);
      }
    }
  }
}
