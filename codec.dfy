/**
 * The entry log format. A log is a sequence of blocks, each introduced by a
 * line "---"; a block holds a header line "<timestamp>" or
 * "<timestamp> | <tag>, <tag>", an optional line "files: <file>, <file>",
 * and the message. formatEntry writes one block, parseEntries reads a whole
 * log back, tolerating blank input, short blocks and missing optional parts.
 */
module EntryCodec {
  import opened Text

  datatype Entry = Entry(timestamp: string, tags: seq<string>, files: seq<string>, message: string)

  const Separator: string := "---"
  const Newline: string := "\n"
  const FilesPrefix: string := "files:"

  // ---------------------------------------------------------------------
  // Writing
  // ---------------------------------------------------------------------

  /** " | a, b" when there are tags, else nothing. */
  function TagPart(e: Entry): string {
    if |e.tags| > 0 then " | " + Join(e.tags, ", ") else ""
  }

  function HeaderLine(e: Entry): string {
    e.timestamp + TagPart(e)
  }

  function FilesLine(e: Entry): string {
    "files: " + Join(e.files, ", ")
  }

  /** "\nfiles: a, b" when there are files, else nothing. */
  function FilesPart(e: Entry): string {
    if |e.files| > 0 then Newline + FilesLine(e) else ""
  }

  /** The block text between the two newlines that surround it. */
  function Body(e: Entry): string {
    HeaderLine(e) + FilesPart(e) + Newline + e.message
  }

  /** The block text between the separator and the next one. */
  function Segment(e: Entry): string {
    Newline + Body(e) + Newline
  }

  /**
   * formatEntry: "---", a newline, the timestamp, the tag part, the files
   * part, a newline, the message and a final newline.
   */
  function FormatEntry(e: Entry): string {
    Separator + Segment(e)
  }

  /** entries.map(formatEntry).join(""): the log holding the entries in order. */
  function FormatAll(es: seq<Entry>): string {
    if es == [] then "" else FormatEntry(es[0]) + FormatAll(es[1..])
  }

  // ---------------------------------------------------------------------
  // Reading
  // ---------------------------------------------------------------------

  function TrimAll(ps: seq<string>): (r: seq<string>)
    ensures |r| == |ps|
    ensures forall i :: 0 <= i < |ps| ==> r[i] == Trim(ps[i])
  {
    if ps == [] then [] else [Trim(ps[0])] + TrimAll(ps[1..])
  }

  /** filter(Boolean) on strings: drops the empty ones. */
  function DropEmpty(ps: seq<string>): (r: seq<string>)
    ensures forall i :: 0 <= i < |r| ==> r[i] != [] && r[i] in ps
  {
    if ps == [] then []
    else if ps[0] == [] then DropEmpty(ps[1..])
    else [ps[0]] + DropEmpty(ps[1..])
  }

  /** s.split(",").map(t => t.trim()).filter(Boolean): a tag or file list. */
  function Tokens(s: string): (r: seq<string>)
    ensures forall i :: 0 <= i < |r| ==> r[i] != [] && IsTrimmed(r[i]) && ',' !in r[i]
  {
    var pieces := Split(s, ",");
    var trimmed := TrimAll(pieces);
    assert forall i :: 0 <= i < |trimmed| ==> ',' !in trimmed[i] by {
      forall i | 0 <= i < |trimmed| ensures ',' !in trimmed[i] {
        CharOccurs(pieces[i], ',');
      }
    }
    DropEmpty(trimmed)
  }

  /** The empty-string filter keeps exactly the non-empty strings. */
  lemma {:induction false} DropEmptyMembers(ps: seq<string>, p: string)
    ensures p in DropEmpty(ps) <==> p in ps && p != []
  {
    if ps != [] {
      DropEmptyMembers(ps[1..], p);
      assert ps == [ps[0]] + ps[1..];
    }
  }

  /** The filter works element by element, so the kept strings stay in order. */
  lemma {:induction false} DropEmptyAppend(a: seq<string>, b: seq<string>)
    ensures DropEmpty(a + b) == DropEmpty(a) + DropEmpty(b)
  {
    if a != [] {
      assert (a + b)[0] == a[0];
      assert (a + b)[1..] == a[1..] + b;
      DropEmptyAppend(a[1..], b);
    } else {
      assert a + b == b;
    }
  }

  /** Every comma piece that is not blank after trimming is a token. */
  lemma TokensKeepPieces(s: string, i: int)
    requires 0 <= i < |Split(s, ",")| && Trim(Split(s, ",")[i]) != []
    ensures Trim(Split(s, ",")[i]) in Tokens(s)
  {
    var trimmed := TrimAll(Split(s, ","));
    assert trimmed[i] in trimmed;
    DropEmptyMembers(trimmed, trimmed[i]);
  }

  /** A blank piece between commas is skipped: "a, ,b" gives the tags a and b. */
  lemma TokensSkipBlank()
    ensures Tokens("a, ,b") == ["a", "b"]
  {
    CharOccurs("b", ',');
    SplitAbsent("b", ",");
    SplitThroughChar(" ", ',', "b");
    assert " " + [','] + "b" == " ,b";
    SplitThroughChar("a", ',', " ,b");
    assert "a" + [','] + " ,b" == "a, ,b";
    TrimOfTrimmed("a");
    TrimOfTrimmed("b");
    TrimLeadingSpace(' ', "");
    assert [' '] + "" == " ";
    DropEmptyAppend(["a"], ["", "b"]);
  }

  /** The header line: the timestamp before the first "|", the tags after it. */
  function ParseHeader(header: string): (r: (string, seq<string>))
    ensures '|' !in r.0
    ensures '|' !in header ==> r == (Trim(header), [])
  {
    var pipe := IndexOf(header, "|");
    CharOccurs(header, '|');
    if pipe != -1 then
      AbsentSlice(header, "|", 0, pipe);
      CharOccurs(header[0..pipe], '|');
      assert header[0..pipe] == header[..pipe];
      (Trim(header[..pipe]), Tokens(header[pipe + 1..]))
    else
      (Trim(header), [])
  }

  /** The entry of a block whose trimmed text has at least two lines. */
  function EntryOfLines(lines: seq<string>): Entry
    requires |lines| >= 2
  {
    var header := ParseHeader(lines[0]);
    var hasFiles := StartsWith(lines[1], FilesPrefix);
    var files := if hasFiles then Tokens(lines[1][|FilesPrefix|..]) else [];
    var start := if hasFiles then 2 else 1;
    Entry(header.0, header.1, files, Trim(Join(lines[start..], Newline)))
  }

  /** block.trim().split("\n") */
  function BlockLines(block: string): seq<string> {
    Split(Trim(block), Newline)
  }

  /** What one block contributes: its entry, or nothing if it has fewer than two lines. */
  function BlockEntries(block: string): seq<Entry> {
    var lines := BlockLines(block);
    if |lines| < 2 then [] else [EntryOfLines(lines)]
  }

  /** filter(b => b.trim()): drops the blank blocks. */
  function NonBlank(bs: seq<string>): seq<string> {
    if bs == [] then []
    else if Trim(bs[0]) == [] then NonBlank(bs[1..])
    else [bs[0]] + NonBlank(bs[1..])
  }

  function ParseBlocks(bs: seq<string>): seq<Entry> {
    if bs == [] then [] else BlockEntries(bs[0]) + ParseBlocks(bs[1..])
  }

  /** parseEntries, as a function: the entries of a log, in file order. */
  function ParseLog(raw: string): (r: seq<Entry>)
    ensures Trim(raw) == [] ==> r == []
  {
    if Trim(raw) == [] then [] else ParseBlocks(NonBlank(Split(raw, Separator)))
  }

  lemma ParseBlocksStep(bs: seq<string>, i: int)
    requires 0 <= i < |bs|
    ensures ParseBlocks(bs[i..]) == BlockEntries(bs[i]) + ParseBlocks(bs[i + 1..])
  {
    assert bs[i..][0] == bs[i];
    assert bs[i..][1..] == bs[i + 1..];
  }

  /** One iteration of the parseEntries loop keeps its invariant. */
  lemma ParseStep(blocks: seq<string>, i: int, entries: seq<Entry>)
    requires 0 <= i < |blocks|
    requires entries + ParseBlocks(blocks[i..]) == ParseBlocks(blocks)
    ensures entries + BlockEntries(blocks[i]) + ParseBlocks(blocks[i + 1..]) == ParseBlocks(blocks)
  {
    ParseBlocksStep(blocks, i);
    AppendAssoc(entries, BlockEntries(blocks[i]), ParseBlocks(blocks[i + 1..]));
  }

  lemma AppendEmpty<T>(a: seq<T>, b: seq<T>)
    requires b == []
    ensures a + b == a
  {
  }

  lemma AppendAssoc<T>(a: seq<T>, b: seq<T>, c: seq<T>)
    ensures a + b + c == a + (b + c)
  {
  }

  /** parseEntries: the loop over the blocks of a log. */
  method ParseEntries(raw: string) returns (entries: seq<Entry>)
    ensures entries == ParseLog(raw)
  {
    if Trim(raw) == [] {
      return [];
    }
    var blocks := NonBlank(Split(raw, Separator));
    entries := [];
    for i := 0 to |blocks|
      invariant entries + ParseBlocks(blocks[i..]) == ParseBlocks(blocks)
    {
      ParseStep(blocks, i, entries);
      var lines := BlockLines(blocks[i]);
      if |lines| < 2 {
        AppendEmpty(entries, BlockEntries(blocks[i]));
        continue;
      }
      entries := entries + [EntryOfLines(lines)];
    }
    assert blocks[|blocks|..] == [];
  }

  // ---------------------------------------------------------------------
  // Well-formed entries
  // ---------------------------------------------------------------------

  /** A tag or file name that survives the round trip. */
  ghost predicate WellFormedToken(t: string) {
    t != [] && IsTrimmed(t) && ',' !in t && '\n' !in t && Absent(t, Separator)
  }

  ghost predicate WellFormedTokens(ts: seq<string>) {
    forall i :: 0 <= i < |ts| ==> WellFormedToken(ts[i])
  }

  /** An entry that formatEntry writes and parseEntries reads back unchanged. */
  ghost predicate WellFormed(e: Entry) {
    && e.timestamp != [] && IsTrimmed(e.timestamp)
    && '|' !in e.timestamp && '\n' !in e.timestamp && Absent(e.timestamp, Separator)
    && WellFormedTokens(e.tags)
    && WellFormedTokens(e.files)
    && e.message != [] && IsTrimmed(e.message) && Absent(e.message, Separator)
    && (e.files == [] ==> !StartsWith(e.message, FilesPrefix))
  }

  ghost predicate AllWellFormed(es: seq<Entry>) {
    forall i :: 0 <= i < |es| ==> WellFormed(es[i])
  }

  // ---------------------------------------------------------------------
  // Regrouping concatenations
  // ---------------------------------------------------------------------

  lemma RegroupFront(a: string, b: string, c: string)
    ensures [] + a + (b + c) == (a + b) + c
  {
  }

  lemma RegroupNext(a: string, b: string, c: string, d: string)
    ensures a + ((b + c) + d) == a + b + (c + d)
  {
  }

  lemma RegroupLines(h: string, n: string, f: string, m: string)
    ensures h + (n + f) + n + m == h + n + (f + n + m)
  {
  }

  lemma RegroupTwoLines(a: string, n: string, b: string, c: string)
    ensures a + n + b + n + c == a + n + (b + n + c)
  {
  }

  lemma RegroupPipe(ts: string, j: string)
    ensures ts + (" | " + j) == (ts + " ") + "|" + (" " + j)
  {
  }

  lemma CutAround(a: string, sep: string, b: string)
    ensures (a + sep + b)[..|a|] == a
    ensures (a + sep + b)[|a| + |sep|..] == b
  {
  }

  lemma FilesLineShape(j: string)
    ensures StartsWith("files: " + j, FilesPrefix)
    ensures ("files: " + j)[|FilesPrefix|..] == " " + j
  {
    assert ("files: " + j)[..|FilesPrefix|] == FilesPrefix;
  }

  // ---------------------------------------------------------------------
  // Token lists
  // ---------------------------------------------------------------------

  /** The tag or file list with a blank in front of each token. */
  function Spaced(ts: seq<string>): (r: seq<string>)
    ensures |r| == |ts|
    ensures forall i :: 0 <= i < |ts| ==> r[i] == " " + ts[i]
  {
    if ts == [] then [] else [" " + ts[0]] + Spaced(ts[1..])
  }

  lemma {:induction false} JoinSpaced(ts: seq<string>)
    requires |ts| >= 1
    ensures " " + Join(ts, ", ") == Join(Spaced(ts), ",")
  {
    if |ts| > 1 {
      JoinSpaced(ts[1..]);
      assert Spaced(ts)[1..] == Spaced(ts[1..]);
      calc {
        " " + Join(ts, ", ");
        " " + ts[0] + ", " + Join(ts[1..], ", ");
        (" " + ts[0]) + "," + (" " + Join(ts[1..], ", "));
        Join(Spaced(ts), ",");
      }
    }
  }

  lemma {:induction false} DropEmptyKeeps(ps: seq<string>)
    requires forall i :: 0 <= i < |ps| ==> ps[i] != []
    ensures DropEmpty(ps) == ps
  {
    if ps != [] {
      DropEmptyKeeps(ps[1..]);
    }
  }

  lemma {:induction false} TrimAllSpaced(ts: seq<string>)
    requires forall i :: 0 <= i < |ts| ==> IsTrimmed(ts[i])
    ensures TrimAll(Spaced(ts)) == ts
  {
    if ts != [] {
      TrimAllSpaced(ts[1..]);
      assert Trim(" " + ts[0]) == ts[0] by {
        TrimLeadingSpace(' ', ts[0]);
        TrimOfTrimmed(ts[0]);
      }
      ConsSplit(" " + ts[0], Spaced(ts[1..]));
      ConsSplit(ts[0], ts[1..]);
    }
  }

  /** A non-empty list of well-formed tokens, written after "|" or "files:", reads back. */
  lemma TokensOfJoin(ts: seq<string>)
    requires |ts| >= 1 && WellFormedTokens(ts)
    ensures Tokens(" " + Join(ts, ", ")) == ts
  {
    var sp := Spaced(ts);
    assert Split(" " + Join(ts, ", "), ",") == sp by {
      JoinSpaced(ts);
      assert forall k :: 0 <= k < |sp| ==> ',' !in sp[k];
      SplitJoinChar(sp, ',');
    }
    assert TrimAll(sp) == ts by {
      TrimAllSpaced(ts);
    }
    DropEmptyKeeps(ts);
  }

  lemma {:induction false} JoinAbsent(ts: seq<string>)
    requires WellFormedTokens(ts)
    ensures Absent(Join(ts, ", "), Separator)
    ensures '\n' !in Join(ts, ", ")
  {
    if |ts| == 1 {
    } else if |ts| > 1 {
      JoinAbsent(ts[1..]);
      var rest := Join(ts[1..], ", ");
      AbsentShort(", ", Separator);
      AbsentConcat(", ", rest, Separator);
      AbsentConcatRight(ts[0], ", " + rest, Separator);
      assert Join(ts, ", ") == ts[0] + (", " + rest);
    } else {
      AbsentShort("", Separator);
    }
  }

  // ---------------------------------------------------------------------
  // The round trip
  // ---------------------------------------------------------------------

  function Segments(es: seq<Entry>): (r: seq<string>)
    ensures |r| == |es|
  {
    if es == [] then [] else [Segment(es[0])] + Segments(es[1..])
  }

  lemma HeaderLineFacts(e: Entry)
    requires WellFormed(e)
    ensures Absent(HeaderLine(e), Separator) && '\n' !in HeaderLine(e)
  {
    if |e.tags| > 0 {
      JoinAbsent(e.tags);
      AbsentForeign(" | ", Separator);
      AbsentConcat(" | ", Join(e.tags, ", "), Separator);
    } else {
      AbsentShort("", Separator);
    }
    AbsentConcatRight(e.timestamp, TagPart(e), Separator);
  }

  lemma FilesPartFacts(e: Entry)
    requires WellFormed(e)
    ensures Absent(FilesPart(e), Separator)
    ensures '\n' !in FilesLine(e)
  {
    JoinAbsent(e.files);
    if |e.files| > 0 {
      AbsentForeign("files: ", Separator);
      AbsentConcat("files: ", Join(e.files, ", "), Separator);
      AbsentShort(Newline, Separator);
      AbsentConcat(Newline, FilesLine(e), Separator);
    } else {
      AbsentShort("", Separator);
    }
  }

  /** A segment never contains the separator. */
  lemma SegmentAbsent(e: Entry)
    requires WellFormed(e)
    ensures Absent(Segment(e), Separator)
  {
    AbsentShort(Newline, Separator);
    HeaderLineFacts(e);
    FilesPartFacts(e);
    var a := HeaderLine(e) + FilesPart(e);
    AbsentConcatRight(HeaderLine(e), FilesPart(e), Separator);
    AbsentConcatRight(a, Newline, Separator);
    AbsentConcat(a + Newline, e.message, Separator);
    AbsentConcat(Newline, Body(e), Separator);
    AbsentConcatRight(Newline + Body(e), Newline, Separator);
  }

  lemma {:induction false} SplitSegments(es: seq<Entry>)
    requires es != [] && AllWellFormed(es)
    ensures Split(Segment(es[0]) + FormatAll(es[1..]), Separator) == Segments(es)
  {
    SegmentAbsent(es[0]);
    var rest := es[1..];
    if rest == [] {
      assert Segment(es[0]) + FormatAll(rest) == Segment(es[0]);
      SplitAbsent(Segment(es[0]), Separator);
    } else {
      var tail := Segment(rest[0]) + FormatAll(rest[1..]);
      RegroupNext(Segment(es[0]), Separator, Segment(rest[0]), FormatAll(rest[1..]));
      SplitThrough(Segment(es[0]), Separator, tail);
      SplitSegments(rest);
    }
  }

  lemma SplitLog(es: seq<Entry>)
    requires es != [] && AllWellFormed(es)
    ensures Split(FormatAll(es), Separator) == [""] + Segments(es)
  {
    var tail := Segment(es[0]) + FormatAll(es[1..]);
    RegroupFront(Separator, Segment(es[0]), FormatAll(es[1..]));
    AbsentShort("", Separator);
    SplitThrough("", Separator, tail);
    SplitSegments(es);
  }

  lemma BodyTrimmed(e: Entry)
    requires WellFormed(e)
    ensures Body(e) != [] && IsTrimmed(Body(e))
    ensures Trim(Segment(e)) == Body(e)
  {
    var b := Body(e);
    assert b[0] == e.timestamp[0];
    assert b[|b| - 1] == e.message[|e.message| - 1];
    TrimWrapped('\n', b, '\n');
  }

  lemma {:induction false} NonBlankSegments(es: seq<Entry>)
    requires AllWellFormed(es)
    ensures NonBlank(Segments(es)) == Segments(es)
  {
    if es != [] {
      BodyTrimmed(es[0]);
      NonBlankSegments(es[1..]);
    }
  }

  /** The lines after the header: the files line if any, then the message lines. */
  function TailLines(e: Entry): seq<string> {
    (if |e.files| > 0 then [FilesLine(e)] else []) + Split(e.message, Newline)
  }

  lemma RegroupEmpty(h: string, n: string, m: string)
    ensures h + [] + n + m == h + n + m
  {
  }

  /** The lines of a header, a files line and a message. */
  lemma LinesOfThree(h: string, fl: string, m: string)
    requires '\n' !in h && '\n' !in fl
    ensures Split(h + Newline + (fl + Newline + m), Newline) == [h] + ([fl] + Split(m, Newline))
  {
    SplitThroughChar(h, '\n', fl + Newline + m);
    SplitThroughChar(fl, '\n', m);
  }

  lemma BodyLinesWithFiles(e: Entry)
    requires WellFormed(e) && |e.files| > 0
    ensures Split(Body(e), Newline) == [HeaderLine(e)] + ([FilesLine(e)] + Split(e.message, Newline))
  {
    var h := HeaderLine(e);
    var fl := FilesLine(e);
    HeaderLineFacts(e);
    FilesPartFacts(e);
    assert Body(e) == h + (Newline + fl) + Newline + e.message;
    RegroupLines(h, Newline, fl, e.message);
    LinesOfThree(h, fl, e.message);
  }

  lemma BodyLinesWithoutFiles(e: Entry)
    requires WellFormed(e) && |e.files| == 0
    ensures Split(Body(e), Newline) == [HeaderLine(e)] + Split(e.message, Newline)
  {
    var h := HeaderLine(e);
    HeaderLineFacts(e);
    assert Body(e) == h + [] + Newline + e.message;
    RegroupEmpty(h, Newline, e.message);
    SplitThroughChar(h, '\n', e.message);
  }

  lemma BodyLines(e: Entry)
    requires WellFormed(e)
    ensures Split(Body(e), Newline) == [HeaderLine(e)] + TailLines(e)
  {
    if |e.files| > 0 {
      BodyLinesWithFiles(e);
    } else {
      BodyLinesWithoutFiles(e);
    }
  }

  /** ParseHeader of a line with one "|" after a part without one. */
  lemma ParseHeaderAt(a: string, b: string)
    requires '|' !in a
    ensures ParseHeader(a + "|" + b) == (Trim(a), Tokens(b))
  {
    CharOccurs(a, '|');
    FirstOccurrence(a, "|", b);
    CutAround(a, "|", b);
  }

  lemma HeaderParsesTagged(e: Entry)
    requires WellFormed(e) && |e.tags| > 0
    ensures ParseHeader(HeaderLine(e)) == (e.timestamp, e.tags)
  {
    var joined := Join(e.tags, ", ");
    var before := e.timestamp + " ";
    assert ParseHeader(HeaderLine(e)) == (Trim(before), Tokens(" " + joined)) by {
      assert HeaderLine(e) == e.timestamp + (" | " + joined);
      RegroupPipe(e.timestamp, joined);
      ParseHeaderAt(before, " " + joined);
    }
    assert Trim(before) == e.timestamp by {
      TrimTrailingSpace(e.timestamp, ' ');
      TrimOfTrimmed(e.timestamp);
    }
    TokensOfJoin(e.tags);
  }

  lemma HeaderParses(e: Entry)
    requires WellFormed(e)
    ensures ParseHeader(HeaderLine(e)) == (e.timestamp, e.tags)
  {
    if |e.tags| > 0 {
      HeaderParsesTagged(e);
    } else {
      assert HeaderLine(e) == e.timestamp;
      TrimOfTrimmed(e.timestamp);
    }
  }

  lemma StartsWithPrefix(s: string, p: string, q: string)
    requires StartsWith(s, p) && StartsWith(p, q)
    ensures StartsWith(s, q)
  {
    assert s[..|q|] == s[..|p|][..|q|];
  }

  lemma MessageLines(m: string)
    requires IsTrimmed(m)
    ensures Trim(Join(Split(m, Newline), Newline)) == m
  {
    JoinSplit(m, Newline);
    TrimOfTrimmed(m);
  }

  lemma ConsSplit<T>(x: T, ys: seq<T>)
    ensures ([x] + ys)[0] == x && ([x] + ys)[1..] == ys
    ensures |ys| > 0 ==> [ys[0]] + ys[1..] == ys
  {
  }

  lemma ConsTwo<T>(h: T, f: T, ms: seq<T>)
    ensures ([h] + ([f] + ms))[0] == h && ([h] + ([f] + ms))[1] == f
    ensures ([h] + ([f] + ms))[2..] == ms
  {
    assert ([h] + ([f] + ms))[2..] == ms;
  }

  lemma ConsOne<T>(h: T, ms: seq<T>)
    requires |ms| >= 1
    ensures ([h] + ms)[0] == h && ([h] + ms)[1] == ms[0] && ([h] + ms)[1..] == ms
  {
  }

  lemma LinesParseWithFiles(e: Entry, lines: seq<string>)
    requires WellFormed(e) && |e.files| > 0
    requires lines == [HeaderLine(e)] + ([FilesLine(e)] + Split(e.message, Newline))
    ensures |lines| >= 2 && EntryOfLines(lines) == e
  {
    ConsTwo(HeaderLine(e), FilesLine(e), Split(e.message, Newline));
    HeaderParses(e);
    FilesLineShape(Join(e.files, ", "));
    TokensOfJoin(e.files);
    MessageLines(e.message);
  }

  lemma LinesParseWithoutFiles(e: Entry, lines: seq<string>)
    requires WellFormed(e) && |e.files| == 0
    requires lines == [HeaderLine(e)] + Split(e.message, Newline)
    ensures |lines| >= 2 && EntryOfLines(lines) == e
  {
    var msgLines := Split(e.message, Newline);
    ConsOne(HeaderLine(e), msgLines);
    HeaderParses(e);
    SplitFirstIsPrefix(e.message, Newline);
    if StartsWith(lines[1], FilesPrefix) {
      StartsWithPrefix(e.message, lines[1], FilesPrefix);
    }
    MessageLines(e.message);
  }

  lemma LinesParse(e: Entry, lines: seq<string>)
    requires WellFormed(e)
    requires lines == [HeaderLine(e)] + TailLines(e)
    ensures |lines| >= 2 && EntryOfLines(lines) == e
  {
    if |e.files| > 0 {
      LinesParseWithFiles(e, lines);
    } else {
      assert TailLines(e) == Split(e.message, Newline);
      LinesParseWithoutFiles(e, lines);
    }
  }

  lemma SegmentParses(e: Entry)
    requires WellFormed(e)
    ensures BlockEntries(Segment(e)) == [e]
  {
    BodyTrimmed(e);
    BodyLines(e);
    LinesParse(e, BlockLines(Segment(e)));
  }

  lemma {:induction false} SegmentsParse(es: seq<Entry>)
    requires AllWellFormed(es)
    ensures ParseBlocks(Segments(es)) == es
  {
    if es != [] {
      SegmentParses(es[0]);
      SegmentsParse(es[1..]);
      ConsSplit(Segment(es[0]), Segments(es[1..]));
      ConsSplit(es[0], es[1..]);
    }
  }

  /** Round trip: parseEntries reads back exactly the well-formed entries formatEntry wrote. */
  lemma RoundTrip(es: seq<Entry>)
    ensures AllWellFormed(es) ==> ParseLog(FormatAll(es)) == es
  {
    if AllWellFormed(es) && es != [] {
      var raw := FormatAll(es);
      assert raw[4] == es[0].timestamp[0];
      NotBlank(raw, 4);
      SplitLog(es);
      assert ([""] + Segments(es))[1..] == Segments(es);
      NonBlankSegments(es);
      SegmentsParse(es);
    }
  }

  // ---------------------------------------------------------------------
  // Appending to a log
  // ---------------------------------------------------------------------

  lemma {:induction false} FormatAllAppend(a: seq<Entry>, b: seq<Entry>)
    ensures FormatAll(a + b) == FormatAll(a) + FormatAll(b)
  {
    if a != [] {
      assert (a + b)[0] == a[0];
      assert (a + b)[1..] == a[1..] + b;
      FormatAllAppend(a[1..], b);
      ConcatAssoc(FormatEntry(a[0]), FormatAll(a[1..]), FormatAll(b));
    } else {
      assert a + b == b;
    }
  }

  /** Appending a well-formed entry to a log of well-formed entries adds it at the end. */
  lemma AppendParses(es: seq<Entry>, e: Entry)
    requires AllWellFormed(es) && WellFormed(e)
    ensures ParseLog(FormatAll(es) + FormatEntry(e)) == es + [e]
  {
    FormatAllAppend(es, [e]);
    assert FormatAll([e]) == FormatEntry(e);
    assert AllWellFormed(es + [e]);
    RoundTrip(es + [e]);
  }

  // ---------------------------------------------------------------------
  // Tolerant parsing
  // ---------------------------------------------------------------------

  /** A block whose trimmed text is a single line yields no entry. */
  lemma SingleLineBlockSkipped(block: string)
    requires '\n' !in Trim(block)
    ensures BlockEntries(block) == []
  {
    CharOccurs(Trim(block), '\n');
    SplitAbsent(Trim(block), Newline);
  }

  /**
   * Without a files line, the message is everything after the header line:
   * no file is invented and nothing of the message is lost.
   */
  lemma MessageAfterHeader(block: string, header: string, rest: string)
    requires Trim(block) == header + Newline + rest
    requires '\n' !in header && !StartsWith(rest, FilesPrefix)
    ensures BlockEntries(block) ==
      [Entry(ParseHeader(header).0, ParseHeader(header).1, [], Trim(rest))]
  {
    SplitThroughChar(header, '\n', rest);
    var lines := BlockLines(block);
    var restLines := Split(rest, Newline);
    assert lines == [header] + restLines;
    SplitFirstIsPrefix(rest, Newline);
    if StartsWith(lines[1], FilesPrefix) {
      StartsWithPrefix(rest, lines[1], FilesPrefix);
    }
    assert lines[1..] == restLines;
    JoinSplit(rest, Newline);
  }

  /** A second line starting with "files:" is the file list, and the message follows it. */
  lemma FilesLineRead(block: string, header: string, filesLine: string, rest: string)
    requires Trim(block) == header + Newline + filesLine + Newline + rest
    requires '\n' !in header && '\n' !in filesLine && StartsWith(filesLine, FilesPrefix)
    ensures BlockEntries(block) ==
      [Entry(ParseHeader(header).0, ParseHeader(header).1,
             Tokens(filesLine[|FilesPrefix|..]), Trim(rest))]
  {
    RegroupTwoLines(header, Newline, filesLine, rest);
    SplitThroughChar(header, '\n', filesLine + Newline + rest);
    SplitThroughChar(filesLine, '\n', rest);
    ConsTwo(header, filesLine, Split(rest, Newline));
    JoinSplit(rest, Newline);
  }
}
