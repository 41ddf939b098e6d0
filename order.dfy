/**
 * Timestamps and sorting. Timestamps are the ISO-8601 strings that
 * Date.prototype.toISOString produces; for strings of that fixed shape the
 * instant order that `new Date(t).getTime()` compares is the lexicographic
 * order of the strings, which is what this module defines. Array.prototype.sort
 * with a comparator is stable, and so is the insertion sort below.
 */
module Order {

  /** Lexicographic order on strings: a is not later than b. */
  predicate LexLe(a: string, b: string)
    decreases |a|
  {
    a == [] || (b != [] && (a[0] < b[0] || (a[0] == b[0] && LexLe(a[1..], b[1..]))))
  }

  lemma {:induction false} LexLeTotal(a: string, b: string)
    ensures LexLe(a, b) || LexLe(b, a)
    decreases |a|
  {
    if a != [] && b != [] && a[0] == b[0] {
      LexLeTotal(a[1..], b[1..]);
    }
  }

  lemma {:induction false} LexLeTransitive(a: string, b: string, c: string)
    requires LexLe(a, b) && LexLe(b, c)
    ensures LexLe(a, c)
    decreases |a|
  {
    if a != [] && a[0] == b[0] && b[0] == c[0] {
      LexLeTransitive(a[1..], b[1..], c[1..]);
    }
  }

  lemma {:induction false} LexLeReflexive(a: string)
    ensures LexLe(a, a)
  {
    if a != [] {
      LexLeReflexive(a[1..]);
    }
  }

  /** The keys never increase along the sequence. */
  ghost predicate SortedDesc<T>(xs: seq<T>, key: T -> string) {
    forall i, j :: 0 <= i < j < |xs| ==> LexLe(key(xs[j]), key(xs[i]))
  }

  lemma InsertInFront<T>(x: T, ys: seq<T>, key: T -> string)
    requires SortedDesc(ys, key) && ys != [] && LexLe(key(ys[0]), key(x))
    ensures SortedDesc([x] + ys, key)
  {
    forall k | 0 <= k < |ys| ensures LexLe(key(ys[k]), key(x)) {
      if k > 0 {
        LexLeTransitive(key(ys[k]), key(ys[0]), key(x));
      }
    }
    SortedCons(x, ys, key);
  }

  lemma InsertBehind<T>(x: T, ys: seq<T>, key: T -> string, rest: seq<T>)
    requires SortedDesc(ys, key) && ys != [] && !LexLe(key(ys[0]), key(x))
    requires SortedDesc(rest, key) && multiset(rest) == multiset(ys[1..]) + multiset{x}
    ensures SortedDesc([ys[0]] + rest, key)
    ensures multiset([ys[0]] + rest) == multiset(ys) + multiset{x}
  {
    LexLeTotal(key(ys[0]), key(x));
    forall k | 0 <= k < |rest| ensures LexLe(key(rest[k]), key(ys[0])) {
      var z := rest[k];
      assert z in multiset(rest);
      if z != x {
        assert z in multiset(ys[1..]);
        var m :| 0 <= m < |ys[1..]| && ys[1..][m] == z;
        assert ys[m + 1] == z;
      }
    }
    SortedCons(ys[0], rest, key);
    assert ys == [ys[0]] + ys[1..];
  }

  lemma SortedCons<T>(x: T, ys: seq<T>, key: T -> string)
    requires SortedDesc(ys, key)
    requires forall k :: 0 <= k < |ys| ==> LexLe(key(ys[k]), key(x))
    ensures SortedDesc([x] + ys, key)
  {
    forall i, j | 0 <= i < j < |ys| + 1 ensures LexLe(key(([x] + ys)[j]), key(([x] + ys)[i])) {
      assert ([x] + ys)[j] == ys[j - 1];
      if i > 0 {
        assert ([x] + ys)[i] == ys[i - 1];
      }
    }
  }

  /** Puts x in front of the first element whose key is not greater than x's. */
  function Insert<T>(x: T, ys: seq<T>, key: T -> string): (r: seq<T>)
    requires SortedDesc(ys, key)
    ensures multiset(r) == multiset(ys) + multiset{x}
    ensures SortedDesc(r, key)
  {
    if ys == [] then [x]
    else if LexLe(key(ys[0]), key(x)) then
      InsertInFront(x, ys, key);
      [x] + ys
    else
      var rest := Insert(x, ys[1..], key);
      InsertBehind(x, ys, key, rest);
      [ys[0]] + rest
  }

  /** A stable sort, latest key first. */
  function SortDesc<T>(xs: seq<T>, key: T -> string): (r: seq<T>)
    ensures multiset(r) == multiset(xs)
    ensures SortedDesc(r, key)
  {
    if xs == [] then []
    else
      assert xs == [xs[0]] + xs[1..];
      Insert(xs[0], SortDesc(xs[1..], key), key)
  }
}
