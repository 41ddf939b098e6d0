# labknowts storage core, modelled in Dafny

labknowts is a personal lab notebook. A notebook holds **projects**. Each
project has a tree of **dimensions**, which are timeline forks. Each
dimension has an append-only text **log** of **entries**, and each entry has
a timestamp, tags, files and a message. This project models the storage
engine `src/lib/storage.ts` and the pure tree builder of the sidebar
(`buildDimTree`, `buildNodes` and `forkId` in `src/components/Sidebar.tsx`),
and proves properties of that model.

The filesystem becomes the state of one object, `Storage.Store`:

- `dirs`: the project directories, in `readdir` order (taken to be creation order, see "## Left out");
- `metas`: the readable `meta.json` of each project directory;
- `logs`: a map from (project, log file name) to the file's text.

The data directory itself always exists. A project's directory is
`path.join(DATA_DIR, slug)`, so the empty slug (the slug of a name with no
ASCII letter or digit) names the data directory itself:

- its `meta.json` and logs are files of the data directory;
- it is never one of the listed subdirectories;
- `addEntry` accepts it.

Each storage function is a method or function on that object. A loop in the
source is a loop here; `getEntries`'s in-place `reverse()` works on an
`array`. Each method is proved against specification functions
(`ParseLog`, `Newest`, `WithoutTimestamp`, `Descendants`, `Remaining`,
`Dedup`, `SortDesc`, `Forest`), and the properties that matter are proved
about those functions as lemmas.

Modules, in dependency order:

- `Text`: the string operations the source uses, at character level. These are
  `trim`, `split`, `join`, `indexOf`, `includes`, `startsWith` and ASCII
  `toLowerCase`.
- `Slug`: `slugify`.
- `Order`: timestamps compared as ISO-8601 strings, and the stable sort by
  one key, latest first.
- `EntryCodec`: `formatEntry` and `parseEntries`, and the round-trip law.
- `Dimensions`: projects' dimension lists, the default `[main]`, the
  descendant closure of `deleteDimension`, and the filter that keeps the
  survivors.
- `Paths`: log file names, trailing-slash normalisation, `path.basename`.
- `EntryLog`: the newest-first view, the timestamp filter of
  `deleteEntry`, and the fork copy of `createDimension`.
- `Search`: the match predicate, deduplication by key, and the properties
  of the final result.
- `Storage`: the `Store` class with every storage operation.
- `Sidebar`: grouping by parent, the child tree, and fork anchors.

Inputs the source takes from the environment are parameters:

- the clock (`new Date().toISOString()`) is the parameter `now`; createDimension reads it twice, first as `forkClock`, then as `now`;
- optional JavaScript arguments are `Option` values, and empty strings are
  read with JavaScript truthiness (`Truthy`, `OrEmpty`);
- exceptions are `Err` values of `Storage.Result`.

Timestamps are the strings `toISOString` writes. For strings of that fixed
shape, the instant order `new Date(t).getTime()` compares is the
lexicographic order, `Order.LexLe`.

## Model

| member | source | states |
|---|---|---|
| Slug.Slugify | src/lib/storage.ts:40-45 | the slug uses only `a-z`, `0-9` and `-`, never has two hyphens in a row, and neither starts nor ends with a hyphen |
| Slug.SlugifyFixpoint | src/lib/storage.ts:40-45 | a string already in slug shape is its own slug |
| Slug.SlugifyIdempotent | src/lib/storage.ts:40-45 | slugifying a slug gives the same slug |
| Paths.LogFileName | src/lib/storage.ts:55-60 | the log is `log.md` exactly for `main`; any other dimension's log name is `log--`, the dimension, `.md`, so the dimension can be read back from it |
| Paths.LogFileNameInjective | src/lib/storage.ts:55-60 | two dimension names with the same log file name are the same name, so no two dimension slugs share a log |
| Paths.StripTrailingSlashes | src/lib/storage.ts:144 | the result is a prefix of the input that does not end in `/`, and only `/` characters were removed |
| Paths.StripTrailingSlashesIdempotent | src/lib/storage.ts:144-146 | normalising a normalised path changes nothing, so the stored path and the queried path are normalised alike |
| Paths.StripSlashAppended | src/lib/storage.ts:144-146 | a path with one more trailing slash finds the same project |
| Paths.Basename | src/lib/storage.ts:437 | the name derived from a repository path contains no `/` |
| Paths.BasenameOfJoin | src/lib/storage.ts:437 | the base name of `dir/name` is `name` (for a non-empty name without `/`) |
| Text.Trim | src/lib/storage.ts:271 | the result starts and ends with no white space and holds only characters of the input |
| Text.TrimBounds | src/lib/storage.ts:271 | the result is the middle slice of the input, and everything cut off in front or behind is white space |
| Text.IndexOf | src/lib/storage.ts:276 | -1 exactly when the pattern does not occur; otherwise the first position where it occurs |
| Text.JoinSplit | src/lib/storage.ts:305 | joining the lines a split produced gives back the original text |
| Text.Lower | src/lib/storage.ts:387 | same length, with each ASCII capital lower-cased and every other character kept |
| Text.LowerChar | src/lib/storage.ts:387 | an ASCII capital becomes the same letter in lower case (code point plus 32); every other character is kept |
| Text.LowerIgnoresCase | src/lib/storage.ts:387 | two strings lower-case alike exactly when they differ at most in the case of ASCII letters |
| Search.QueryIgnoresCase | src/lib/storage.ts:387-398 | queries that differ only in ASCII letter case match the same entries |
| Search.MessageIgnoresCase | src/lib/storage.ts:395 | changing the ASCII letter case of a message does not change which queries it matches |
| EntryCodec.Tokens | src/lib/storage.ts:281-286 | every tag or file token is non-empty, trimmed and free of commas |
| EntryCodec.DropEmptyMembers | src/lib/storage.ts:285-286 | the empty-string filter keeps exactly the non-empty pieces |
| EntryCodec.DropEmptyAppend | src/lib/storage.ts:285-286 | the filter works piece by piece, so the kept pieces stay in their original order |
| EntryCodec.TokensKeepPieces | src/lib/storage.ts:282-286 | every comma piece that is not blank after trimming is one of the tokens |
| EntryCodec.TokensSkipBlank | src/lib/storage.ts:282-286 | a blank piece between commas is skipped: `a, ,b` gives exactly the tokens `a` and `b` |
| EntryCodec.ParseHeader | src/lib/storage.ts:275-290 | the timestamp never contains `\|`; a header without `\|` is the trimmed timestamp with no tags |
| EntryCodec.ParseLog | src/lib/storage.ts:266 | blank or whitespace-only input gives no entries |
| EntryCodec.ParseEntries | src/lib/storage.ts:265-310 | the block loop returns exactly the entries `ParseLog` reads from the text, in file order |
| EntryCodec.RoundTrip | src/lib/storage.ts:259-310 | parsing the concatenated formatted entries gives back the entries, in order, when every entry is well formed: a non-empty trimmed timestamp without `\|`, a newline or `---`; non-empty trimmed tags and files without `,`, a newline or `---` (a tag `a---b` would split the block); a non-empty trimmed message without `---`; and, when there are no files, a message that does not start with `files:` |
| EntryCodec.AppendParses | src/lib/storage.ts:351-356 | appending one formatted well-formed entry to a log of well-formed entries adds exactly that entry at the end |
| EntryCodec.SingleLineBlockSkipped | src/lib/storage.ts:271-272 | a block with fewer than two lines after trimming contributes no entry |
| EntryCodec.MessageAfterHeader | src/lib/storage.ts:292-306 | without a `files:` line the files are empty and the message is the trimmed text from line 1 on |
| EntryCodec.FilesLineRead | src/lib/storage.ts:295-306 | a `files:` second line gives the file tokens and the message starts at line 2 |
| Order.LexLeTotal | src/lib/storage.ts:415-417 | any two timestamps are comparable |
| Order.LexLeTransitive | src/lib/storage.ts:415-417 | timestamp order is transitive |
| Order.SortDesc | src/lib/storage.ts:415-417 | the sort returns a permutation of its input, latest timestamp first |
| EntryLog.Reverse | src/lib/storage.ts:324 | position `i` of the result holds position `n-1-i` of the input |
| EntryLog.ReverseInPlace | src/lib/storage.ts:324 | the array afterwards holds its old contents reversed |
| EntryLog.ReverseReverse | src/lib/storage.ts:183-185 | reversing the newest-first list restores the file order, which is the chronological order createDimension copies |
| EntryLog.Newest | src/lib/storage.ts:321-329 | newest first; with a positive limit, the first `min(limit, n)` of them, otherwise all `n` |
| EntryLog.AddedComesFirst | src/lib/storage.ts:332-359 | after an entry is appended, reading the log newest first returns that entry first, whatever the limit |
| EntryLog.WithoutTimestamp | src/lib/storage.ts:371-373 | keeps exactly the entries with another timestamp; the length stays the same exactly when no entry has the timestamp |
| EntryLog.WithoutTimestampAppend | src/lib/storage.ts:371-373 | the filter works entry by entry, so the kept entries stay in their original order |
| EntryLog.RewriteParses | src/lib/storage.ts:371-377 | the rewritten log of well-formed entries reads back as exactly the kept entries, in their original order |
| EntryLog.NotAfter | src/lib/storage.ts:187-192 | keeps exactly the entries whose timestamp is not after the cutoff |
| EntryLog.NotAfterAppend | src/lib/storage.ts:187-192 | the cutoff filter works entry by entry, so the copy keeps the file order of any log, chronological or not |
| EntryLog.NotAfterIsPrefix | src/lib/storage.ts:182-192 | on a chronological log the entries kept by the cutoff are a prefix of the log |
| EntryLog.ForkCopies | src/lib/storage.ts:182-198 | the source log read newest first and reversed is the source entries in file order, and the new log reads back as exactly the copied entries |
| Dimensions.DimensionsOf | src/lib/storage.ts:152-162 | never empty; the recorded list when it is non-empty, otherwise the single default `main` dimension |
| Dimensions.DefaultWellFormed | src/lib/storage.ts:156-161 | the default list is well formed: unique slugs, `main` first and unforked, every parent listed earlier |
| Dimensions.AppendForkWellFormed | src/lib/storage.ts:214-216 | appending a fork with a fresh slug whose parent is listed keeps the list well formed |
| Dimensions.DescendantClosure | src/lib/storage.ts:229-240 | the fixed-point loop returns a set that holds the target, is closed under "forked from a member", is the least such set, and equals the target with its descendants |
| Dimensions.ClosureIsDescendants | src/lib/storage.ts:229-240 | a slug is in the least closed set holding the target exactly when its fork links lead back to the target |
| Dimensions.MainSurvives | src/lib/storage.ts:222-240 | on a well-formed list, deleting a dimension other than `main` never deletes `main` |
| Dimensions.RemainingMembers | src/lib/storage.ts:249 | a dimension remains exactly when it was listed and its slug was not deleted |
| Dimensions.RemainingAppend | src/lib/storage.ts:249 | the filter works element by element, so the survivors keep their original order |
| Dimensions.RemainingSlugs | src/lib/storage.ts:249 | a slug is still listed exactly when it was listed and not deleted |
| Dimensions.RemainingWellFormed | src/lib/storage.ts:249 | removing a closed set that spares `main` leaves a well-formed list |
| Search.MatchingHits | src/lib/storage.ts:393-401 | every hit is an entry of the dimension that matches the query, and every matching entry is a hit |
| Search.DedupFromKeys | src/lib/storage.ts:407-413 | the filter keeps no key twice and keeps every key it had not seen before |
| Search.Deduplicate | src/lib/storage.ts:407-413 | the loop with a mutable seen set returns exactly the first hit of each key |
| Search.SearchResults | src/lib/storage.ts:407-417 | the sorted deduplicated hits hold no key twice, are newest first, all match the query, and cover every key found |
| Storage.Merge | src/lib/storage.ts:137 | slug, creation time and dimensions are kept; each of name, description and repository path is replaced exactly when the update supplies it |
| Storage.MergeLaws | src/lib/storage.ts:130-140 | two updates in a row equal one update with the later fields winning; an update is idempotent; an empty update changes nothing |
| Storage.FirstRepoIndex | src/lib/storage.ts:146-147 | the index of the first project whose normalised repository path matches, or the end of the list |
| Storage.RemoveOneMore | src/lib/storage.ts:242-246 | unlinking one more dimension's log removes exactly that log, if present |
| Storage.Store.constructor | src/lib/storage.ts:34-38 | the empty data directory: no projects, no logs |
| Storage.Store.Project | src/lib/storage.ts:90-98 | a project is found exactly when its meta is readable, and it carries the slug it is looked up by |
| Storage.Store.Readable | src/lib/storage.ts:73-83 | the projects read are exactly the readable metas of the listed directories |
| Storage.Store.Projects | src/lib/storage.ts:85-87 | a permutation of the readable projects, newest creation time first |
| Storage.Store.ListedHaveDirectories | src/lib/storage.ts:70-76 | every listed project has a subdirectory of its own, so a project with the empty slug is never listed |
| Storage.Store.ListProjects | src/lib/storage.ts:68-88 | the loop returns `Projects()`, so it holds exactly the readable metas of the listed directories |
| Storage.Store.CreateProject | src/lib/storage.ts:100-128 | an existing readable project is returned unchanged; otherwise a fresh meta with the slug and an empty main log is written, and a directory is added unless it exists (the empty slug uses the data directory) |
| Storage.Store.UpdateProject | src/lib/storage.ts:130-140 | a missing project gives `None` and changes nothing; otherwise the merged meta is stored and returned |
| Storage.Store.FindProjectByRepoPath | src/lib/storage.ts:142-148 | the result is the first project in listing order (the newest) whose normalised repository path equals the normalised query; no result means no listed project has that path |
| Storage.Store.ResolveProject | src/lib/storage.ts:422-442 | the name wins over the path. An existing project is returned unchanged. A new name creates a meta with that name and empty description and path. An unknown path returns the project already holding the slug of its base name, whatever path that project records, or else creates one named after the base name that records the path. With neither argument it fails. Each branch states the whole new store |
| Storage.Store.Dims | src/lib/storage.ts:152-162 | no project gives no dimensions, otherwise its listed or default dimension list |
| Storage.Store.GetEntries | src/lib/storage.ts:312-330 | the parsed log, newest first, cut to a positive limit; a missing log gives none |
| Storage.Store.AddEntry | src/lib/storage.ts:332-359 | a project whose directory does not exist fails and changes nothing; otherwise (the empty slug included, whose directory is the data directory) only this log changes, to its old text (empty if missing) followed by the formatted entry |
| Storage.Store.DeleteEntry | src/lib/storage.ts:361-378 | true exactly when the log exists and has an entry with the timestamp; then the log is rewritten with those entries removed; otherwise nothing changes |
| Storage.Store.CreateDimension | src/lib/storage.ts:164-219 | an unknown project or a taken slug fails and changes nothing; otherwise the new log holds the copied entries, the dimension list becomes the old list (or `[main]`) followed by the fork, whose fork timestamp is the cutoff, else the last source entry's, else the first clock reading, and whose creation time is the second clock reading; well-formedness is kept when the source dimension exists |
| Storage.Store.WriteFork | src/lib/storage.ts:193-216 | the new log and the project's updated meta are written, and nothing else changes |
| Storage.Store.UnlinkLogs | src/lib/storage.ts:242-246 | exactly the logs of the deleted dimensions are removed |
| Storage.Store.DeleteDimension | src/lib/storage.ts:221-255 | `main` fails; a missing project or dimension gives false and changes nothing; otherwise the target and its descendants lose their logs and leave the list, and `main` survives on a well-formed list |
| Storage.Store.ProjectHitsMatch | src/lib/storage.ts:390-403 | every hit collected from a project's dimensions matches the query |
| Storage.Store.AllHitsMatch | src/lib/storage.ts:389-404 | every hit collected from all projects matches the query |
| Storage.Store.CollectDimension | src/lib/storage.ts:392-402 | the innermost loop appends exactly the dimension's matching entries, newest first |
| Storage.Store.CollectProject | src/lib/storage.ts:390-403 | the middle loop appends the hits of each of the project's dimensions, in list order |
| Storage.Store.SearchEntries | src/lib/storage.ts:382-418 | the result is the deduplicated hits sorted newest first: no key twice, ordered by timestamp, every one a match, and every key found is represented |
| Sidebar.ChildrenOf | src/components/Sidebar.tsx:28-33 | exactly the dimensions of the list that fork from the parent, in input order |
| Sidebar.GroupByParent | src/components/Sidebar.tsx:27-33 | the grouping loop maps each parent to its forks in input order; unforked dimensions and parents without forks get no entry |
| Sidebar.BuildNodes | src/components/Sidebar.tsx:35-41 | the recursive map builds the child forest of the parent, and terminates on an acyclic list |
| Sidebar.BuildDimTree | src/components/Sidebar.tsx:26-44 | on an acyclic list the tree is the child forest of `main` |
| Sidebar.ForestRankFree | src/components/Sidebar.tsx:35-41 | the tree does not depend on which ranking witnesses acyclicity |
| Sidebar.ForestRoots | src/components/Sidebar.tsx:43 | the top-level nodes are exactly the forks of `main`, in input order |
| Sidebar.ForestShaped | src/components/Sidebar.tsx:28-41 | no node holds an unforked dimension, and each node's children are exactly the forks of that node, in input order |
| Sidebar.TreeShape | src/components/Sidebar.tsx:26-44 | both shape properties hold for the whole tree |
| Sidebar.ForestNoDup | src/components/Sidebar.tsx:35-41 | with unique slugs, no dimension appears twice below a parent |
| Sidebar.TreeListsEachOnce | src/components/Sidebar.tsx:35-43 | with unique slugs, the tree lists every dimension that descends from `main` exactly once, and nothing else |
| Sidebar.ClosureIsSubtree | src/components/Sidebar.tsx:35-41 | the slugs deleteDimension removes are the target and the slugs shown below it in the tree |
| Sidebar.Dashed | src/components/Sidebar.tsx:47 | same length, with every `:` and `.` replaced by `-` and every other character kept |
| Sidebar.ForkId | src/components/Sidebar.tsx:46-48 | `fork-` followed by the timestamp with `:` and `.` replaced by `-` |
| Sidebar.ForkIdClean | src/components/Sidebar.tsx:46-48 | a fork anchor never contains `:` or `.` |

## Left out

- Filesystem I/O (`existsSync`, `readFileSync`, `writeFileSync`, `appendFileSync`, `unlinkSync`, `mkdirSync`, `readdirSync`, `ensureDataDir`) is replaced by the three fields of `Storage.Store`. Non-directory entries in the data directory are not modelled.
- The JSON form of `meta.json` is not modelled. A meta that is missing or malformed is simply absent from `metas`.
- The data directory is taken to exist, as every operation after `ensureDataDir` finds it. A store whose data directory has not been created yet is not modelled.
- Project and dimension arguments are used as names and are not path-normalised. `path.join` resolves `..` segments, so a caller-supplied dimension such as `y/../log--x` names the same file as `x`. Paths.LogFileNameInjective covers distinct names, not distinct files.
- EntryLog.Newest: `limit` is an integer here. In the source it is a JavaScript number, and a fractional limit such as 2.5 is truncated by `slice`.
- EntryLog.NotAfter: the fork cutoff is compared as a string in the `toISOString` shape. The source parses the caller-supplied cutoff with `Date`, so a cutoff in another ISO-8601 form (for example with a `+02:00` offset) is compared by instant there but by string order here.
- Storage.Store.CreateProject: a new directory is appended to `dirs`, so the model takes `readdir` to list directories in creation order. Node leaves that order to the filesystem. It decides only ties between equal creation times: in `Projects()`, in FindProjectByRepoPath and in the order of search results.
- Concurrent writers are not modelled. Every operation is one atomic step.
- The clock is the parameter `now`. createDimension reads it twice, as the parameters `forkClock` and `now`. `Date` parsing is replaced by string order, so invalid dates (NaN) are not modelled.
- `toLowerCase` lower-cases ASCII letters only. `slugify`'s regular expressions are written as character-level functions.
- `path.join` is modelled as the (project, file name) key of `logs`. `path.basename` is the POSIX last segment after trailing slashes are stripped.
- The MCP server, the React components and the HTTP route handlers are not part of this model. The API route passes its request body to `updateProject` unchecked; the model takes only the three updatable fields.
- Storage.Store.DeleteEntry: the rewritten log is stated as the formatted remaining entries. `EntryLog.RewriteParses` shows they read back exactly only when the log held well-formed entries. A parsed entry such as one with an empty timestamp is not guaranteed to survive a rewrite.
- Storage.Store.CreateDimension: the copy is stated for any source dimension. The source does not check that the source dimension exists, so forking an unlisted dimension copies whatever log has its name (addEntry writes to any dimension's log) and records it as the parent. Well-formedness is proved only when the source dimension exists.
- Order.SortDesc: sort stability is not proved, only that the result is a permutation ordered by timestamp. `Array.prototype.sort` is stable.
- Storage.Store.UnlinkLogs: the logs are removed in an unspecified order. Only the final map is stated, not the order of the `unlinkSync` calls.
- Storage.Store.SearchEntries: the three nested loops are split into one method per level, `CollectProject` and `CollectDimension`.
- Sidebar.BuildDimTree and Sidebar.BuildNodes: require the whole fork relation to be acyclic. The source recursion diverges only on a cycle reachable from `main`. Because createDimension does not check that the source dimension exists, a list with a cycle away from `main` can arise (fork `a` from a missing `b`, then fork `b` from `a`). On it the source returns a tree without the cycle, and the model does not cover that case.
- Sidebar.TreeListsEachOnce: requires unique slugs. With repeated slugs the source can list a subtree twice.
