/**
 * Search results: which entries match a query, the deduplication of hits
 * that several dimensions share, and the properties of the final list.
 */
module Search {
  import opened Text
  import opened Order
  import opened EntryCodec
  import opened Dimensions

  /** An entry found by a search, with the project and dimension it came from. */
  datatype Hit = Hit(entry: Entry, project: ProjectMeta, dimension: string)

  function Timestamp(h: Hit): string {
    h.entry.timestamp
  }

  /** Some string, lower-cased, contains the (already lower-cased) query. */
  predicate AnyIncludes(xs: seq<string>, q: string) {
    exists i | 0 <= i < |xs| :: Includes(Lower(xs[i]), q)
  }

  /** The entry matches in its message, a tag, a file or the project name. */
  predicate Matches(e: Entry, p: ProjectMeta, q: string) {
    || Includes(Lower(e.message), q)
    || AnyIncludes(e.tags, q)
    || AnyIncludes(e.files, q)
    || Includes(Lower(p.name), q)
  }

  /** A query matches the same entries whatever the case of its ASCII letters. */
  lemma QueryIgnoresCase(e: Entry, p: ProjectMeta, q1: string, q2: string)
    requires SameUpToCase(q1, q2)
    ensures Matches(e, p, Lower(q1)) <==> Matches(e, p, Lower(q2))
  {
    LowerIgnoresCase(q1, q2);
  }

  /** Changing the case of ASCII letters in a message does not change which queries it matches. */
  lemma MessageIgnoresCase(e: Entry, p: ProjectMeta, m: string, q: string)
    requires SameUpToCase(e.message, m)
    ensures Matches(e, p, q) <==> Matches(e.(message := m), p, q)
  {
    LowerIgnoresCase(e.message, m);
  }

  /** The deduplication key: project slug, timestamp and message. */
  function Key(h: Hit): string {
    h.project.slug + ":" + h.entry.timestamp + ":" + h.entry.message
  }

  /** The hits of one dimension: its entries that match, in the order given. */
  function MatchingHits(p: ProjectMeta, dimension: string, es: seq<Entry>, q: string): (r: seq<Hit>)
    ensures forall i :: 0 <= i < |r| ==>
      r[i].entry in es && r[i].project == p && r[i].dimension == dimension && Matches(r[i].entry, p, q)
    ensures forall e :: e in es && Matches(e, p, q) ==> Hit(e, p, dimension) in r
  {
    if es == [] then []
    else
      var last := es[|es| - 1];
      MatchingHits(p, dimension, es[..|es| - 1], q) + (if Matches(last, p, q) then [Hit(last, p, dimension)] else [])
  }

  /** One more entry considered by the matching loop. */
  lemma MatchingStep(p: ProjectMeta, dimension: string, es: seq<Entry>, k: int, q: string)
    requires 0 <= k < |es|
    ensures MatchingHits(p, dimension, es[..k + 1], q) ==
      MatchingHits(p, dimension, es[..k], q) + (if Matches(es[k], p, q) then [Hit(es[k], p, dimension)] else [])
  {
    assert es[..k + 1][..k] == es[..k];
  }

  // ---------------------------------------------------------------------
  // Deduplication
  // ---------------------------------------------------------------------

  function Keys(hs: seq<Hit>): set<string> {
    set i | 0 <= i < |hs| :: Key(hs[i])
  }

  /** The filter through the seen set: the first hit of every key not yet seen. */
  function DedupFrom(hs: seq<Hit>, seen: set<string>): (r: seq<Hit>)
    ensures forall i :: 0 <= i < |r| ==> r[i] in hs && Key(r[i]) !in seen
  {
    if hs == [] then []
    else if Key(hs[0]) in seen then DedupFrom(hs[1..], seen)
    else [hs[0]] + DedupFrom(hs[1..], seen + {Key(hs[0])})
  }

  function Dedup(hs: seq<Hit>): seq<Hit> {
    DedupFrom(hs, {})
  }

  ghost predicate DistinctKeys(hs: seq<Hit>) {
    forall i, j :: 0 <= i < j < |hs| ==> Key(hs[i]) != Key(hs[j])
  }

  /** No key is kept twice, and every key not seen before is kept. */
  lemma {:induction false} DedupFromKeys(hs: seq<Hit>, seen: set<string>)
    ensures DistinctKeys(DedupFrom(hs, seen))
    ensures Keys(DedupFrom(hs, seen)) == Keys(hs) - seen
  {
    if hs != [] {
      var k := Key(hs[0]);
      assert hs == [hs[0]] + hs[1..];
      KeysCons(hs[0], hs[1..]);
      if k in seen {
        DedupFromKeys(hs[1..], seen);
      } else {
        var rest := DedupFrom(hs[1..], seen + {k});
        DedupFromKeys(hs[1..], seen + {k});
        KeysCons(hs[0], rest);
        DistinctCons(hs[0], rest);
      }
    }
  }

  lemma KeysCons(h: Hit, hs: seq<Hit>)
    ensures Keys([h] + hs) == {Key(h)} + Keys(hs)
  {
    var r := [h] + hs;
    assert r[0] == h;
    forall i | 1 <= i < |r| ensures Key(r[i]) in Keys(hs) {
      assert r[i] == hs[i - 1];
    }
    forall i | 0 <= i < |hs| ensures Key(hs[i]) in Keys(r) {
      assert hs[i] == r[i + 1];
    }
  }

  lemma DistinctCons(h: Hit, rest: seq<Hit>)
    requires DistinctKeys(rest) && Key(h) !in Keys(rest)
    ensures DistinctKeys([h] + rest)
  {
    var r := [h] + rest;
    forall i, j | 0 <= i < j < |r| ensures Key(r[i]) != Key(r[j]) {
      assert r[j] == rest[j - 1];
      if i > 0 {
        assert r[i] == rest[i - 1];
      }
    }
  }

  /** The results.filter of searchEntries, with its mutable seen set. */
  method Deduplicate(results: seq<Hit>) returns (deduped: seq<Hit>)
    ensures deduped == Dedup(results)
  {
    var seen: set<string> := {};
    deduped := [];
    for i := 0 to |results|
      invariant deduped + DedupFrom(results[i..], seen) == Dedup(results)
    {
      var rest := results[i + 1..];
      assert results[i..] == [results[i]] + rest;
      var key := Key(results[i]);
      if key in seen {
        continue;
      }
      AppendAssoc(deduped, [results[i]], DedupFrom(rest, seen + {key}));
      seen := seen + {key};
      deduped := deduped + [results[i]];
    }
    AppendEmpty(deduped, DedupFrom(results[|results|..], seen));
  }

  // ---------------------------------------------------------------------
  // The result list
  // ---------------------------------------------------------------------

  ghost predicate AllMatch(hs: seq<Hit>, q: string) {
    forall i :: 0 <= i < |hs| ==> Matches(hs[i].entry, hs[i].project, q)
  }

  /**
   * The deduplicated hits sorted newest first hold no key twice, are ordered
   * by timestamp descending, all match the query, and represent every key
   * among the hits found.
   */
  lemma SearchResults(hs: seq<Hit>, q: string)
    requires AllMatch(hs, q)
    ensures var r := SortDesc(Dedup(hs), Timestamp);
      && DistinctKeys(r)
      && SortedDesc(r, Timestamp)
      && AllMatch(r, q)
      && Keys(r) == Keys(hs)
  {
    var d := Dedup(hs);
    var r := SortDesc(d, Timestamp);
    DedupFromKeys(hs, {});
    assert multiset(r) == multiset(d);
    forall i | 0 <= i < |r| ensures r[i] in d {
      assert r[i] in multiset(d);
    }
    forall i, j | 0 <= i < j < |r| ensures Key(r[i]) != Key(r[j]) {
      DistinctAfterPermutation(d, r, i, j);
    }
    forall i | 0 <= i < |r| ensures Matches(r[i].entry, r[i].project, q) {
      var h := r[i];
      assert h in hs;
    }
    SameKeys(d, r);
  }

  lemma SameKeys(d: seq<Hit>, r: seq<Hit>)
    requires multiset(r) == multiset(d)
    ensures Keys(r) == Keys(d)
  {
    forall i | 0 <= i < |r| ensures Key(r[i]) in Keys(d) {
      assert r[i] in multiset(d);
      var j :| 0 <= j < |d| && d[j] == r[i];
    }
    forall i | 0 <= i < |d| ensures Key(d[i]) in Keys(r) {
      assert d[i] in multiset(r);
      var j :| 0 <= j < |r| && r[j] == d[i];
    }
  }

  /** A permutation of a list with distinct keys has distinct keys. */
  lemma DistinctAfterPermutation(d: seq<Hit>, r: seq<Hit>, i: int, j: int)
    requires DistinctKeys(d) && multiset(r) == multiset(d)
    requires 0 <= i < j < |r|
    ensures Key(r[i]) != Key(r[j])
  {
    assert r[i] in multiset(d) && r[j] in multiset(d);
    var a :| 0 <= a < |d| && d[a] == r[i];
    var b :| 0 <= b < |d| && d[b] == r[j];
    if r[i] == r[j] {
      CountTwo(r, i, j);
      TwoCopies(d, a);
      assert false;
    }
  }

  lemma CountTwo(r: seq<Hit>, i: int, j: int)
    requires 0 <= i < j < |r| && r[i] == r[j]
    ensures multiset(r)[r[i]] >= 2
  {
    assert r == r[..i] + [r[i]] + r[i + 1..j] + [r[j]] + r[j + 1..];
  }

  /** An element that occurs twice in the multiset of d occurs at a second index. */
  lemma TwoCopies(d: seq<Hit>, a: int)
    requires 0 <= a < |d| && multiset(d)[d[a]] >= 2
    ensures exists c :: 0 <= c < |d| && c != a && d[c] == d[a]
  {
    var x := d[a];
    assert d == d[..a] + [x] + d[a + 1..];
    assert multiset(d) == multiset(d[..a]) + multiset{x} + multiset(d[a + 1..]);
    if x in d[..a] {
      var c :| 0 <= c < a && d[..a][c] == x;
      assert d[c] == x;
    } else {
      assert x in multiset(d[a + 1..]);
      var c :| 0 <= c < |d| - a - 1 && d[a + 1..][c] == x;
      assert d[a + 1 + c] == x;
    }
  }
}
