/**
 * Slug derivation for project and dimension names: lower-case the name, turn
 * every run of characters outside [a-z0-9] into one hyphen, and drop one
 * leading and one trailing hyphen.
 */
module Slug {
  import opened Text

  predicate IsSlugChar(c: char) {
    'a' <= c <= 'z' || '0' <= c <= '9'
  }

  /** Every character is a slug character or a hyphen. */
  ghost predicate SlugAlphabet(s: string) {
    forall i :: 0 <= i < |s| ==> IsSlugChar(s[i]) || s[i] == '-'
  }

  ghost predicate NoDoubleHyphen(s: string) {
    forall i :: 0 <= i < |s| - 1 ==> !(s[i] == '-' && s[i + 1] == '-')
  }

  /** The shape of every string slugify returns. */
  ghost predicate IsSlug(s: string) {
    && SlugAlphabet(s)
    && NoDoubleHyphen(s)
    && (s != [] ==> s[0] != '-' && s[|s| - 1] != '-')
  }

  /** Drops the leading run of characters outside [a-z0-9]. */
  function DropRun(s: string): (r: string)
    ensures |r| <= |s| && r == s[|s| - |r|..]
    ensures r == [] || IsSlugChar(r[0])
    ensures (s == [] || IsSlugChar(s[0])) ==> r == s
  {
    if s != [] && !IsSlugChar(s[0]) then DropRun(s[1..]) else s
  }

  /** The regular-expression replacement of /[^a-z0-9]+/g by "-". */
  function CollapseRuns(s: string): (r: string)
    ensures SlugAlphabet(r) && NoDoubleHyphen(r)
    ensures s != [] && IsSlugChar(s[0]) ==> r != [] && r[0] == s[0]
    decreases |s|
  {
    if s == [] then []
    else if IsSlugChar(s[0]) then
      var rest := CollapseRuns(s[1..]);
      PrependKeepsShape(s[0], rest);
      [s[0]] + rest
    else
      var rest := CollapseRuns(DropRun(s[1..]));
      PrependKeepsShape('-', rest);
      "-" + rest
  }

  lemma PrependKeepsShape(c: char, r: string)
    requires SlugAlphabet(r) && NoDoubleHyphen(r)
    requires IsSlugChar(c) || (c == '-' && (r == [] || IsSlugChar(r[0])))
    ensures SlugAlphabet([c] + r) && NoDoubleHyphen([c] + r)
  {
    assert forall i :: 1 <= i < |r| + 1 ==> ([c] + r)[i] == r[i - 1];
  }

  /** The regular-expression replacement of /^-|-$/g by "". */
  function TrimHyphens(s: string): (r: string)
    requires SlugAlphabet(s) && NoDoubleHyphen(s)
    ensures IsSlug(r)
  {
    var t := if s != [] && s[0] == '-' then s[1..] else s;
    assert SlugAlphabet(t) && NoDoubleHyphen(t);
    if t != [] && t[|t| - 1] == '-' then t[..|t| - 1] else t
  }

  /** slugify, with toLowerCase restricted to ASCII letters. */
  function Slugify(name: string): (r: string)
    ensures IsSlug(r)
  {
    TrimHyphens(CollapseRuns(Lower(name)))
  }

  /** A string already in slug shape has no upper-case character to lower. */
  lemma LowerOfAlphabet(s: string)
    requires SlugAlphabet(s)
    ensures Lower(s) == s
  {
  }

  /** Collapsing runs leaves single hyphens between slug characters alone. */
  lemma {:induction false} CollapseFixpoint(s: string)
    requires SlugAlphabet(s) && NoDoubleHyphen(s)
    ensures CollapseRuns(s) == s
    decreases |s|
  {
    if s != [] {
      assert SlugAlphabet(s[1..]) && NoDoubleHyphen(s[1..]);
      if IsSlugChar(s[0]) {
        CollapseFixpoint(s[1..]);
      } else {
        if |s| > 1 {
          assert s[1] != '-';
          assert DropRun(s[1..]) == s[1..];
        } else {
          assert s[1..] == [];
        }
        CollapseFixpoint(s[1..]);
      }
    }
  }

  /** slugify leaves a slug unchanged. */
  lemma SlugifyFixpoint(s: string)
    requires IsSlug(s)
    ensures Slugify(s) == s
  {
    LowerOfAlphabet(s);
    CollapseFixpoint(s);
  }

  /** slugify is idempotent. */
  lemma SlugifyIdempotent(name: string)
    ensures Slugify(Slugify(name)) == Slugify(name)
  {
    SlugifyFixpoint(Slugify(name));
  }
}
