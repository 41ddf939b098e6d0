/**
 * The operations on one (project, dimension) log that do not depend on the
 * rest of the store: the newest-first view of getEntries, the timestamp
 * filter of deleteEntry, and the prefix that createDimension copies.
 */
module EntryLog {
  import opened Order
  import opened EntryCodec
  import opened Dimensions

  function Reverse<T>(s: seq<T>): (r: seq<T>)
    ensures |r| == |s|
    ensures forall i :: 0 <= i < |s| ==> r[i] == s[|s| - 1 - i]
  {
    if s == [] then [] else [s[|s| - 1]] + Reverse(s[..|s| - 1])
  }

  lemma ReverseReverse<T>(s: seq<T>)
    ensures Reverse(Reverse(s)) == s
  {
    var r := Reverse(Reverse(s));
    assert forall i :: 0 <= i < |s| ==> r[i] == s[i];
  }

  /** Array.prototype.reverse: swaps the ends pairwise towards the middle. */
  method ReverseInPlace<T>(a: array<T>)
    modifies a
    ensures a[..] == Reverse(old(a[..]))
  {
    var n := a.Length;
    for i := 0 to n / 2
      invariant forall k :: 0 <= k < i ==> a[k] == old(a[n - 1 - k]) && a[n - 1 - k] == old(a[k])
      invariant forall k :: i <= k < n - i ==> a[k] == old(a[k])
    {
      a[i], a[n - 1 - i] := a[n - 1 - i], a[i];
    }
    assert forall k :: 0 <= k < n ==> a[..][k] == Reverse(old(a[..]))[k];
  }

  function Min(a: int, b: int): int {
    if a < b then a else b
  }

  /**
   * What getEntries returns for a parsed log: the entries newest first,
   * cut to the first `limit` when a positive limit is given.
   */
  function Newest(es: seq<Entry>, limit: Option<int>): (r: seq<Entry>)
    ensures |r| == if limit.Some? && limit.value > 0 then Min(limit.value, |es|) else |es|
    ensures forall i :: 0 <= i < |r| ==> r[i] == es[|es| - 1 - i]
  {
    var all := Reverse(es);
    if limit.Some? && limit.value > 0 then all[..Min(limit.value, |all|)] else all
  }

  predicate HasTimestamp(es: seq<Entry>, t: string) {
    exists i | 0 <= i < |es| :: es[i].timestamp == t
  }

  /** deleteEntry's filter: every entry whose timestamp differs, in order. */
  function WithoutTimestamp(es: seq<Entry>, t: string): (r: seq<Entry>)
    ensures forall e :: e in r <==> e in es && e.timestamp != t
    ensures |r| <= |es|
    ensures |r| == |es| <==> !HasTimestamp(es, t)
  {
    if es == [] then []
    else
      var rest := WithoutTimestamp(es[1..], t);
      assert forall i :: 1 <= i < |es| ==> es[i] == es[1..][i - 1];
      if es[0].timestamp == t then rest else [es[0]] + rest
  }

  /** The timestamp filter works entry by entry, so the kept entries stay in their original order. */
  lemma {:induction false} WithoutTimestampAppend(a: seq<Entry>, b: seq<Entry>, t: string)
    ensures WithoutTimestamp(a + b, t) == WithoutTimestamp(a, t) + WithoutTimestamp(b, t)
  {
    if a != [] {
      assert (a + b)[0] == a[0];
      assert (a + b)[1..] == a[1..] + b;
      WithoutTimestampAppend(a[1..], b, t);
    } else {
      assert a + b == b;
    }
  }

  /** A list drawn from well-formed entries is well formed. */
  lemma DrawnWellFormed(xs: seq<Entry>, ys: seq<Entry>)
    requires AllWellFormed(ys)
    requires forall e :: e in xs ==> e in ys
    ensures AllWellFormed(xs)
  {
    forall i | 0 <= i < |xs| ensures WellFormed(xs[i]) {
      assert xs[i] in xs;
      var j :| 0 <= j < |ys| && ys[j] == xs[i];
    }
  }

  /**
   * Rewriting a log of well-formed entries without the entries of one
   * timestamp leaves a log that reads back as exactly the others, in order.
   */
  lemma RewriteParses(es: seq<Entry>, t: string)
    requires AllWellFormed(es)
    ensures ParseLog(FormatAll(WithoutTimestamp(es, t))) == WithoutTimestamp(es, t)
  {
    DrawnWellFormed(WithoutTimestamp(es, t), es);
    RoundTrip(WithoutTimestamp(es, t));
  }

  /** The cutoff filter of createDimension: the entries not later than the cutoff, in order. */
  function NotAfter(es: seq<Entry>, cutoff: string): (r: seq<Entry>)
    ensures forall e :: e in r <==> e in es && LexLe(e.timestamp, cutoff)
  {
    if es == [] then []
    else
      var rest := NotAfter(es[1..], cutoff);
      assert forall i :: 1 <= i < |es| ==> es[i] == es[1..][i - 1];
      if LexLe(es[0].timestamp, cutoff) then [es[0]] + rest else rest
  }

  /** The cutoff filter works entry by entry, so the copy keeps the file order on any log. */
  lemma {:induction false} NotAfterAppend(a: seq<Entry>, b: seq<Entry>, cutoff: string)
    ensures NotAfter(a + b, cutoff) == NotAfter(a, cutoff) + NotAfter(b, cutoff)
  {
    if a != [] {
      assert (a + b)[0] == a[0];
      assert (a + b)[1..] == a[1..] + b;
      NotAfterAppend(a[1..], b, cutoff);
    } else {
      assert a + b == b;
    }
  }

  /** `if (fromTimestamp)`: the string is present and not empty. */
  predicate Truthy(o: Option<string>) {
    o.Some? && o.value != []
  }

  /** The entries createDimension writes into the new log. */
  function CopiedEntries(chronological: seq<Entry>, fromTimestamp: Option<string>): seq<Entry> {
    if Truthy(fromTimestamp) then NotAfter(chronological, fromTimestamp.value) else chronological
  }

  /** forkedFrom.timestamp: the cutoff, else the last source entry, else now. */
  function ForkTimestamp(chronological: seq<Entry>, fromTimestamp: Option<string>, now: string): string {
    if Truthy(fromTimestamp) then fromTimestamp.value
    else if |chronological| > 0 then chronological[|chronological| - 1].timestamp
    else now
  }

  /** Entries whose timestamps never decrease, as addEntry leaves them when the clock does not go back. */
  ghost predicate Chronological(es: seq<Entry>) {
    forall i, j :: 0 <= i < j < |es| ==> LexLe(es[i].timestamp, es[j].timestamp)
  }

  /** On a chronological log the cutoff filter keeps a prefix. */
  lemma {:induction false} NotAfterIsPrefix(es: seq<Entry>, cutoff: string)
    requires Chronological(es)
    ensures exists k :: 0 <= k <= |es| && NotAfter(es, cutoff) == es[..k]
  {
    if es == [] {
      assert NotAfter(es, cutoff) == es[..0];
    } else {
      var tail := es[1..];
      assert Chronological(tail) by {
        forall i, j | 0 <= i < j < |tail| ensures LexLe(tail[i].timestamp, tail[j].timestamp) {
          assert tail[i] == es[i + 1] && tail[j] == es[j + 1];
        }
      }
      if LexLe(es[0].timestamp, cutoff) {
        NotAfterIsPrefix(tail, cutoff);
        var k :| 0 <= k <= |tail| && NotAfter(tail, cutoff) == tail[..k];
        assert [es[0]] + tail[..k] == es[..k + 1];
      } else {
        LaterThanFirst(es, cutoff);
        assert NotAfter(es, cutoff) == es[..0];
      }
    }
  }

  lemma LaterThanFirst(es: seq<Entry>, cutoff: string)
    requires Chronological(es) && es != [] && !LexLe(es[0].timestamp, cutoff)
    ensures NotAfter(es, cutoff) == []
  {
    var r := NotAfter(es, cutoff);
    if r != [] {
      var e := r[0];
      assert e in r;
      var j :| 0 <= j < |es| && es[j] == e;
      if j > 0 {
        LexLeTransitive(es[0].timestamp, e.timestamp, cutoff);
      }
      assert false;
    }
  }

  /**
   * createDimension reads the source back newest first and reverses it: for a
   * log written from well-formed entries that is the entries themselves, and
   * the new log reads back as exactly the copied entries.
   */
  lemma ForkCopies(es: seq<Entry>, fromTimestamp: Option<string>)
    requires AllWellFormed(es)
    ensures Reverse(Newest(ParseLog(FormatAll(es)), None)) == es
    ensures ParseLog(FormatAll(CopiedEntries(es, fromTimestamp))) == CopiedEntries(es, fromTimestamp)
  {
    RoundTrip(es);
    ReverseReverse(es);
    var c := CopiedEntries(es, fromTimestamp);
    DrawnWellFormed(c, es);
    RoundTrip(c);
  }

  /** An entry added to a log of well-formed entries comes first in getEntries. */
  lemma AddedComesFirst(es: seq<Entry>, e: Entry, limit: Option<int>)
    requires AllWellFormed(es) && WellFormed(e)
    ensures var r := Newest(ParseLog(FormatAll(es) + FormatEntry(e)), limit);
      r != [] && r[0] == e
  {
    AppendParses(es, e);
  }
}
