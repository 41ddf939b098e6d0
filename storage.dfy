/**
 * The notebook store. The data directory becomes three fields: the project
 * directories in listing order, the readable meta.json of each directory,
 * and the contents of every log file keyed by directory and file name.
 * Every operation of the storage layer is a method on that state; "now" is
 * a parameter wherever the source reads the clock.
 */
module Storage {
  import opened Text
  import opened Slug
  import opened Order
  import opened EntryCodec
  import opened Dimensions
  import opened Paths
  import opened Search
  import opened EntryLog

  datatype LogKey = LogKey(project: string, file: string)

  function LogKeyOf(project: string, dimension: string): LogKey {
    LogKey(project, LogFileName(dimension))
  }

  /** The errors the storage layer throws. */
  datatype Error = ProjectNotFound(project: string) | DimensionExists(dimension: string) | CannotDeleteMain | MissingArgument

  datatype Result<T> = Ok(value: T) | Err(error: Error)

  /** `x || ""` for an optional string. */
  function OrEmpty(o: Option<string>): string {
    if o.Some? then o.value else ""
  }

  /** `x || []` for an optional list. */
  function OrNone(o: Option<seq<string>>): seq<string> {
    if o.Some? then o.value else []
  }

  function CreatedAt(m: ProjectMeta): string {
    m.createdAt
  }

  // ---------------------------------------------------------------------
  // Project records
  // ---------------------------------------------------------------------

  /** The fields updateProject may change; an absent field is left alone. */
  datatype ProjectUpdate = ProjectUpdate(name: Option<string>, description: Option<string>, repoPath: Option<string>)

  function Override(current: string, update: Option<string>): string {
    if update.Some? then update.value else current
  }

  /** { ...meta, ...updates } */
  function Merge(meta: ProjectMeta, u: ProjectUpdate): (r: ProjectMeta)
    ensures r.slug == meta.slug && r.createdAt == meta.createdAt && r.dimensions == meta.dimensions
    ensures r.name == (if u.name.Some? then u.name.value else meta.name)
    ensures r.description == (if u.description.Some? then u.description.value else meta.description)
    ensures r.repoPath == (if u.repoPath.Some? then u.repoPath.value else meta.repoPath)
  {
    meta.(name := Override(meta.name, u.name),
          description := Override(meta.description, u.description),
          repoPath := Override(meta.repoPath, u.repoPath))
  }

  /** The update that applies u, then v. */
  function Then(u: ProjectUpdate, v: ProjectUpdate): ProjectUpdate {
    ProjectUpdate(
      if v.name.Some? then v.name else u.name,
      if v.description.Some? then v.description else u.description,
      if v.repoPath.Some? then v.repoPath else u.repoPath)
  }

  /** Merging twice is merging once with the later fields winning; merging nothing changes nothing. */
  lemma MergeLaws(meta: ProjectMeta, u: ProjectUpdate, v: ProjectUpdate)
    ensures Merge(Merge(meta, u), v) == Merge(meta, Then(u, v))
    ensures Merge(Merge(meta, u), u) == Merge(meta, u)
    ensures Merge(meta, ProjectUpdate(None, None, None)) == meta
  {
  }

  predicate RepoMatch(p: ProjectMeta, normalized: string) {
    StripTrailingSlashes(p.repoPath) == normalized
  }

  /** projects.find on the normalised repository path, from index `from` on. */
  function FirstRepoIndex(ps: seq<ProjectMeta>, normalized: string, from: nat): (i: nat)
    requires from <= |ps|
    ensures from <= i <= |ps|
    ensures i < |ps| ==> RepoMatch(ps[i], normalized)
    ensures forall j :: from <= j < i ==> !RepoMatch(ps[j], normalized)
    decreases |ps| - from
  {
    if from == |ps| || RepoMatch(ps[from], normalized) then from
    else FirstRepoIndex(ps, normalized, from + 1)
  }

  // ---------------------------------------------------------------------
  // Removing log files
  // ---------------------------------------------------------------------

  /** The log of one of the given dimensions of the project. */
  predicate LogOfAny(k: LogKey, project: string, gone: set<string>) {
    k.project == project && exists s | s in gone :: k.file == LogFileName(s)
  }

  /** The logs left after unlinking the log of every dimension in gone. */
  function RemoveLogs(logs: map<LogKey, string>, project: string, gone: set<string>): map<LogKey, string> {
    map k | k in logs && !LogOfAny(k, project, gone) :: logs[k]
  }

  lemma RemoveOneMore(logs: map<LogKey, string>, project: string, gone: set<string>, s: string)
    ensures var m := RemoveLogs(logs, project, gone);
      var k := LogKeyOf(project, s);
      RemoveLogs(logs, project, gone + {s}) == if k in m then m - {k} else m
  {
    var m := RemoveLogs(logs, project, gone);
    var k := LogKeyOf(project, s);
    var after := RemoveLogs(logs, project, gone + {s});
    var expected := if k in m then m - {k} else m;
    forall x | x in after ensures x in expected && after[x] == expected[x] {
      assert !LogOfAny(x, project, gone + {s});
      assert x != k;
    }
    forall x | x in expected ensures x in after {
      assert x != k && !LogOfAny(x, project, gone);
      assert !(x.project == project && x.file == LogFileName(s));
    }
  }

  /**
   * The store: project directories, their readable metas, and the log files.
   * The data directory itself exists throughout. A project directory is
   * `path.join(DATA_DIR, slug)`, so the empty slug names the data directory
   * itself: its meta and logs are files of the data directory, and it is
   * never one of the listed subdirectories.
   */
  class Store {
    var dirs: seq<string>
    var metas: map<string, ProjectMeta>
    var logs: map<LogKey, string>

    /** A meta lives in its own directory and a log in an existing directory. */
    ghost predicate Valid()
      reads this
    {
      && "" !in dirs
      && (forall s :: s in metas ==> (s == "" || s in dirs) && metas[s].slug == s)
      && (forall k :: k in logs ==> k.project == "" || k.project in dirs)
    }

    /** The directory of the project exists: the data directory for "", else a listed subdirectory. */
    predicate HasDir(slug: string)
      reads this
    {
      slug == "" || slug in dirs
    }

    /** An empty data directory. */
    constructor ()
      ensures Valid()
      ensures dirs == [] && metas == map[] && logs == map[]
    {
      dirs := [];
      metas := map[];
      logs := map[];
    }

    // -------------------------------------------------------------------
    // Projects
    // -------------------------------------------------------------------

    /** getProject */
    function Project(slug: string): (r: Option<ProjectMeta>)
      reads this
      ensures r.Some? <==> slug in metas
      ensures Valid() && r.Some? ==> r.value.slug == slug
    {
      if slug in metas then Some(metas[slug]) else None
    }

    /** The readable metas of the given directories, in listing order. */
    function Readable(ds: seq<string>): (r: seq<ProjectMeta>)
      reads this
      ensures forall m :: m in r <==> exists i :: 0 <= i < |ds| && ds[i] in metas && metas[ds[i]] == m
    {
      if ds == [] then []
      else
        var last := ds[|ds| - 1];
        var init := ds[..|ds| - 1];
        assert forall i :: 0 <= i < |init| ==> init[i] == ds[i];
        Readable(init) + (if last in metas then [metas[last]] else [])
    }

    /** listProjects: every readable project, newest first. */
    function Projects(): (r: seq<ProjectMeta>)
      reads this
      ensures multiset(r) == multiset(Readable(dirs))
      ensures SortedDesc(r, CreatedAt)
    {
      SortDesc(Readable(dirs), CreatedAt)
    }

    /** Every listed project has a subdirectory of its own, so the data directory's meta is never listed. */
    lemma ListedHaveDirectories()
      requires Valid()
      ensures forall m :: m in Projects() ==> m.slug != "" && m.slug in dirs
    {
      forall m | m in Projects() ensures m.slug != "" && m.slug in dirs {
        assert m in multiset(Projects());
        assert m in Readable(dirs);
        var i :| 0 <= i < |dirs| && dirs[i] in metas && metas[dirs[i]] == m;
      }
    }

    method ListProjects() returns (projects: seq<ProjectMeta>)
      ensures projects == Projects()
      ensures forall m :: m in projects <==> exists i :: 0 <= i < |dirs| && dirs[i] in metas && metas[dirs[i]] == m
    {
      var collected: seq<ProjectMeta> := [];
      for i := 0 to |dirs|
        invariant collected == Readable(dirs[..i])
      {
        assert dirs[..i + 1][..i] == dirs[..i];
        if dirs[i] in metas {
          collected := collected + [metas[dirs[i]]];
        }
      }
      assert dirs[..|dirs|] == dirs;
      projects := SortDesc(collected, CreatedAt);
      forall m ensures m in projects <==> m in collected {
        assert m in projects <==> m in multiset(projects);
        assert m in collected <==> m in multiset(collected);
      }
    }

    /**
     * createProject: an existing readable project is returned unchanged;
     * otherwise the directory is made, the meta written and the main log
     * emptied.
     */
    method CreateProject(name: string, description: Option<string>, repoPath: Option<string>, now: string)
      returns (meta: ProjectMeta)
      requires Valid()
      modifies this
      ensures Valid()
      ensures meta.slug == Slugify(name)
      ensures var slug := Slugify(name);
        if old(HasDir(slug)) && slug in old(metas) then
          meta == old(metas)[slug] && dirs == old(dirs) && metas == old(metas) && logs == old(logs)
        else
          && meta == ProjectMeta(name, slug, OrEmpty(description), OrEmpty(repoPath), now, None)
          && dirs == (if old(HasDir(slug)) then old(dirs) else old(dirs) + [slug])
          && metas == old(metas)[slug := meta]
          && logs == old(logs)[LogKeyOf(slug, MainSlug) := ""]
    {
      var slug := Slugify(name);
      if HasDir(slug) {
        var existing := Project(slug);
        if existing.Some? {
          return existing.value;
        }
      } else {
        dirs := dirs + [slug];
      }
      meta := ProjectMeta(name, slug, OrEmpty(description), OrEmpty(repoPath), now, None);
      metas := metas[slug := meta];
      logs := logs[LogKeyOf(slug, MainSlug) := ""];
    }

    /** updateProject: merges the update into a readable meta. */
    method UpdateProject(slug: string, u: ProjectUpdate) returns (r: Option<ProjectMeta>)
      requires Valid()
      modifies this
      ensures Valid()
      ensures dirs == old(dirs) && logs == old(logs)
      ensures slug !in old(metas) ==> r == None && metas == old(metas)
      ensures slug in old(metas) ==> r == Some(Merge(old(metas)[slug], u)) && metas == old(metas)[slug := r.value]
    {
      var meta := Project(slug);
      if meta.None? {
        return None;
      }
      var updated := Merge(meta.value, u);
      metas := metas[slug := updated];
      return Some(updated);
    }

    /** findProjectByRepoPath: the newest project whose path matches up to trailing slashes. */
    function FindProjectByRepoPath(repoPath: string): (r: Option<ProjectMeta>)
      reads this
      ensures r.Some? ==> r.value in Projects() && RepoMatch(r.value, StripTrailingSlashes(repoPath))
      ensures r.Some? ==> exists i :: 0 <= i < |Projects()| && r.value == Projects()[i] &&
                                  forall j :: 0 <= j < i ==> !RepoMatch(Projects()[j], StripTrailingSlashes(repoPath))
      ensures r.None? ==> forall p :: p in Projects() ==> !RepoMatch(p, StripTrailingSlashes(repoPath))
    {
      var ps := Projects();
      var i := FirstRepoIndex(ps, StripTrailingSlashes(repoPath), 0);
      if i < |ps| then Some(ps[i]) else None
    }

    /**
     * resolveProject: a name wins over a path; a path finds the project
     * recorded for it or creates one named after its last segment.
     */
    method ResolveProject(name: Option<string>, repoPath: Option<string>, now: string) returns (r: Result<ProjectMeta>)
      requires Valid()
      modifies this
      ensures Valid()
      ensures Truthy(name) ==> r.Ok? && r.value.slug == Slugify(name.value)
      ensures Truthy(name) && Slugify(name.value) in old(metas) ==>
        r == Ok(old(metas)[Slugify(name.value)]) && metas == old(metas) && logs == old(logs) && dirs == old(dirs)
      ensures !Truthy(name) && Truthy(repoPath) ==> r.Ok?
      ensures !Truthy(name) && Truthy(repoPath) && old(FindProjectByRepoPath(repoPath.value)).Some? ==>
        r == Ok(old(FindProjectByRepoPath(repoPath.value)).value) && metas == old(metas) && logs == old(logs) && dirs == old(dirs)
      ensures Truthy(name) && Slugify(name.value) !in old(metas) ==>
        var slug := Slugify(name.value);
        && r == Ok(ProjectMeta(name.value, slug, "", "", now, None))
        && dirs == (if old(HasDir(slug)) then old(dirs) else old(dirs) + [slug])
        && metas == old(metas)[slug := r.value]
        && logs == old(logs)[LogKeyOf(slug, MainSlug) := ""]
      ensures !Truthy(name) && Truthy(repoPath) && old(FindProjectByRepoPath(repoPath.value)).None? ==>
        r.value.slug == Slugify(Basename(repoPath.value))
      ensures !Truthy(name) && Truthy(repoPath) && old(FindProjectByRepoPath(repoPath.value)).None? ==>
        var base := Basename(repoPath.value);
        var slug := Slugify(base);
        if slug in old(metas) then
          r == Ok(old(metas)[slug]) && metas == old(metas) && logs == old(logs) && dirs == old(dirs)
        else
          && r == Ok(ProjectMeta(base, slug, "", repoPath.value, now, None))
          && dirs == (if old(HasDir(slug)) then old(dirs) else old(dirs) + [slug])
          && metas == old(metas)[slug := r.value]
          && logs == old(logs)[LogKeyOf(slug, MainSlug) := ""]
      ensures !Truthy(name) && !Truthy(repoPath) ==>
        r == Err(MissingArgument) && metas == old(metas) && logs == old(logs) && dirs == old(dirs)
    {
      if Truthy(name) {
        var slug := Slugify(name.value);
        var existing := Project(slug);
        if existing.Some? {
          return Ok(existing.value);
        }
        var created := CreateProject(name.value, None, None, now);
        return Ok(created);
      }
      if Truthy(repoPath) {
        var existing := FindProjectByRepoPath(repoPath.value);
        if existing.Some? {
          return Ok(existing.value);
        }
        var created := CreateProject(Basename(repoPath.value), Some(""), Some(repoPath.value), now);
        return Ok(created);
      }
      return Err(MissingArgument);
    }

    // -------------------------------------------------------------------
    // Entries
    // -------------------------------------------------------------------

    /** The entries of a log in file order; a missing log has none. */
    function Entries(slug: string, dimension: string): seq<Entry>
      reads this
    {
      var k := LogKeyOf(slug, dimension);
      if k in logs then ParseLog(logs[k]) else []
    }

    /** getEntries: the log parsed, reversed in place, and cut to the limit. */
    method GetEntries(slug: string, limit: Option<int>, dimension: string) returns (entries: seq<Entry>)
      ensures entries == Newest(Entries(slug, dimension), limit)
    {
      var k := LogKeyOf(slug, dimension);
      if k !in logs {
        return [];
      }
      var parsed := ParseEntries(logs[k]);
      var a := new Entry[|parsed|](i requires 0 <= i < |parsed| => parsed[i]);
      assert a[..] == parsed;
      ReverseInPlace(a);
      if limit.Some? && limit.value > 0 {
        entries := a[..Min(limit.value, a.Length)];
      } else {
        entries := a[..];
      }
    }

    /** addEntry: appends the formatted entry to the log, creating it if missing. */
    method AddEntry(slug: string, message: string, tags: Option<seq<string>>, files: Option<seq<string>>,
                    dimension: string, now: string) returns (r: Result<Entry>)
      requires Valid()
      modifies this
      ensures Valid()
      ensures dirs == old(dirs) && metas == old(metas)
      ensures !old(HasDir(slug)) ==> r == Err(ProjectNotFound(slug)) && logs == old(logs)
      ensures old(HasDir(slug)) ==>
        var k := LogKeyOf(slug, dimension);
        && r == Ok(Entry(now, OrNone(tags), OrNone(files), message))
        && logs == old(logs)[k := (if k in old(logs) then old(logs)[k] else "") + FormatEntry(r.value)]
    {
      if !HasDir(slug) {
        return Err(ProjectNotFound(slug));
      }
      var entry := Entry(now, OrNone(tags), OrNone(files), message);
      var k := LogKeyOf(slug, dimension);
      if k !in logs {
        logs := logs[k := ""];
      }
      logs := logs[k := logs[k] + FormatEntry(entry)];
      return Ok(entry);
    }

    /** deleteEntry: rewrites the log without the entries of one timestamp. */
    method DeleteEntry(slug: string, timestamp: string, dimension: string) returns (deleted: bool)
      requires Valid()
      modifies this
      ensures Valid()
      ensures dirs == old(dirs) && metas == old(metas)
      ensures deleted <==> LogKeyOf(slug, dimension) in old(logs) && HasTimestamp(old(Entries(slug, dimension)), timestamp)
      ensures !deleted ==> logs == old(logs)
      ensures deleted ==> logs == old(logs)[LogKeyOf(slug, dimension) :=
        FormatAll(WithoutTimestamp(old(Entries(slug, dimension)), timestamp))]
    {
      var k := LogKeyOf(slug, dimension);
      if k !in logs {
        return false;
      }
      var entries := ParseEntries(logs[k]);
      assert entries == Entries(slug, dimension);
      var filtered := WithoutTimestamp(entries, timestamp);
      if |filtered| == |entries| {
        return false;
      }
      logs := logs[k := FormatAll(filtered)];
      return true;
    }

    // -------------------------------------------------------------------
    // Dimensions
    // -------------------------------------------------------------------

    /** listDimensions: none for a missing project, else the recorded list or [main]. */
    function Dims(slug: string): (r: seq<Dimension>)
      reads this
      ensures slug !in metas ==> r == []
      ensures slug in metas ==> r == DimensionsOf(metas[slug])
    {
      if slug in metas then DimensionsOf(metas[slug]) else []
    }

    /**
     * createDimension: copies the source log up to the cutoff into the log
     * of the new slug and appends the fork to the dimension list. The source
     * reads the clock twice: `forkClock` is the reading used as the fork
     * timestamp of an empty uncut source log, `now` the one for createdAt.
     */
    method CreateDimension(slug: string, name: string, from: string, fromTimestamp: Option<string>,
                           forkClock: string, now: string)
      returns (r: Result<Dimension>)
      requires Valid()
      modifies this
      ensures Valid()
      ensures dirs == old(dirs)
      ensures slug !in old(metas) ==>
        r == Err(ProjectNotFound(slug)) && metas == old(metas) && logs == old(logs)
      ensures slug in old(metas) && HasSlug(old(Dims(slug)), Slugify(name)) ==>
        r == Err(DimensionExists(Slugify(name))) && metas == old(metas) && logs == old(logs)
      ensures slug in old(metas) && !HasSlug(old(Dims(slug)), Slugify(name)) ==>
        var chronological := old(Entries(slug, from));
        && r == Ok(Dimension(Slugify(name), name,
             Some(ForkPoint(from, ForkTimestamp(chronological, fromTimestamp, forkClock))), now))
        && logs == old(logs)[LogKeyOf(slug, Slugify(name)) := FormatAll(CopiedEntries(chronological, fromTimestamp))]
        && metas == old(metas)[slug := old(metas)[slug].(dimensions := Some(old(Dims(slug)) + [r.value]))]
        && Dims(slug) == old(Dims(slug)) + [r.value]
      ensures r.Ok? && WellFormedDims(old(Dims(slug))) && HasSlug(old(Dims(slug)), from) ==>
        WellFormedDims(Dims(slug))
    {
      var meta := Project(slug);
      if meta.None? {
        return Err(ProjectNotFound(slug));
      }
      var dslug := Slugify(name);
      var dimensions := Dims(slug);
      if HasSlug(dimensions, dslug) {
        return Err(DimensionExists(dslug));
      }
      var source := GetEntries(slug, None, from);
      var chronological := Reverse(source);
      ReverseReverse(Entries(slug, from));
      assert chronological == Entries(slug, from);
      var toCopy := CopiedEntries(chronological, fromTimestamp);
      var dim := Dimension(dslug, name, Some(ForkPoint(from, ForkTimestamp(chronological, fromTimestamp, forkClock))), now);
      var updated := meta.value.(dimensions := Some(dimensions + [dim]));
      assert DimensionsOf(updated) == dimensions + [dim];
      WriteFork(slug, dslug, FormatAll(toCopy), updated);
      assert Dims(slug) == dimensions + [dim];
      if WellFormedDims(dimensions) && HasSlug(dimensions, from) {
        AppendForkWellFormed(dimensions, dim);
      }
      return Ok(dim);
    }

    /** The two writes of createDimension: the new log and the updated meta of the project. */
    method WriteFork(slug: string, dimension: string, content: string, updated: ProjectMeta)
      requires Valid() && slug in metas && updated.slug == slug
      modifies this
      ensures Valid()
      ensures dirs == old(dirs)
      ensures logs == old(logs)[LogKeyOf(slug, dimension) := content]
      ensures metas == old(metas)[slug := updated]
    {
      logs := logs[LogKeyOf(slug, dimension) := content];
      metas := metas[slug := updated];
    }

    /** The unlink loop of deleteDimension, over the set in any order. */
    method UnlinkLogs(slug: string, toDelete: set<string>)
      requires Valid()
      modifies this
      ensures Valid()
      ensures logs == RemoveLogs(old(logs), slug, toDelete)
      ensures metas == old(metas) && dirs == old(dirs)
    {
      var pending := toDelete;
      while pending != {}
        invariant pending <= toDelete
        invariant logs == RemoveLogs(old(logs), slug, toDelete - pending)
        invariant metas == old(metas) && dirs == old(dirs)
        invariant Valid()
        decreases |pending|
      {
        var s :| s in pending;
        RemoveOneMore(old(logs), slug, toDelete - pending, s);
        assert toDelete - (pending - {s}) == (toDelete - pending) + {s};
        var k := LogKeyOf(slug, s);
        if k in logs {
          logs := logs - {k};
        }
        pending := pending - {s};
      }
      assert toDelete - pending == toDelete;
    }

    /**
     * deleteDimension: removes the dimension and everything forked from it,
     * directly or not, together with their logs.
     */
    method DeleteDimension(slug: string, dimension: string) returns (r: Result<bool>)
      requires Valid()
      modifies this
      ensures Valid()
      ensures dirs == old(dirs)
      ensures dimension == MainSlug ==> r == Err(CannotDeleteMain) && metas == old(metas) && logs == old(logs)
      ensures dimension != MainSlug && !HasSlug(old(Dims(slug)), dimension) ==>
        r == Ok(false) && metas == old(metas) && logs == old(logs)
      ensures dimension != MainSlug && HasSlug(old(Dims(slug)), dimension) ==>
        var gone := Descendants(old(Dims(slug)), dimension);
        && r == Ok(true)
        && logs == RemoveLogs(old(logs), slug, gone)
        && metas == old(metas)[slug := old(metas)[slug].(dimensions := Some(Remaining(old(Dims(slug)), gone)))]
        && (WellFormedDims(old(Dims(slug))) ==> MainSlug !in gone && WellFormedDims(Dims(slug)))
    {
      if dimension == MainSlug {
        return Err(CannotDeleteMain);
      }
      var meta := Project(slug);
      if meta.None? {
        return Ok(false);
      }
      var dimensions := Dims(slug);
      if !HasSlug(dimensions, dimension) {
        return Ok(false);
      }
      var toDelete := DescendantClosure(dimensions, dimension);
      UnlinkLogs(slug, toDelete);
      var remaining := Remaining(dimensions, toDelete);
      metas := metas[slug := meta.value.(dimensions := Some(remaining))];
      if WellFormedDims(dimensions) {
        MainSurvives(dimensions, dimension, toDelete);
        RemainingWellFormed(dimensions, toDelete);
      }
      return Ok(true);
    }

    // -------------------------------------------------------------------
    // Search
    // -------------------------------------------------------------------

    /** The hits the inner loop of searchEntries pushes for one dimension. */
    function DimensionHits(p: ProjectMeta, d: Dimension, q: string): seq<Hit>
      reads this
    {
      MatchingHits(p, d.slug, Newest(Entries(p.slug, d.slug), None), q)
    }

    /** The hits of a project's dimensions, in order. */
    function ProjectHits(p: ProjectMeta, ds: seq<Dimension>, q: string): seq<Hit>
      reads this
    {
      if ds == [] then [] else ProjectHits(p, ds[..|ds| - 1], q) + DimensionHits(p, ds[|ds| - 1], q)
    }

    /** The hits of the listed projects, in order, before deduplication. */
    function AllHits(ps: seq<ProjectMeta>, q: string): seq<Hit>
      reads this
    {
      if ps == [] then [] else AllHits(ps[..|ps| - 1], q) + ProjectHits(ps[|ps| - 1], Dims(ps[|ps| - 1].slug), q)
    }

    lemma {:induction false} ProjectHitsMatch(p: ProjectMeta, ds: seq<Dimension>, q: string)
      ensures AllMatch(ProjectHits(p, ds, q), q)
    {
      if ds != [] {
        ProjectHitsMatch(p, ds[..|ds| - 1], q);
      }
    }

    /** Every hit found matches the query. */
    lemma {:induction false} AllHitsMatch(ps: seq<ProjectMeta>, q: string)
      ensures AllMatch(AllHits(ps, q), q)
    {
      if ps != [] {
        AllHitsMatch(ps[..|ps| - 1], q);
        ProjectHitsMatch(ps[|ps| - 1], Dims(ps[|ps| - 1].slug), q);
      }
    }

    /** The innermost loop of searchEntries: pushes the matching entries of one dimension, newest first. */
    method CollectDimension(found: seq<Hit>, project: ProjectMeta, d: Dimension, q: string) returns (results: seq<Hit>)
      ensures results == found + DimensionHits(project, d, q)
    {
      var entries := GetEntries(project.slug, None, d.slug);
      results := found;
      for k := 0 to |entries|
        invariant results == found + MatchingHits(project, d.slug, entries[..k], q)
      {
        MatchingStep(project, d.slug, entries, k, q);
        var hit: seq<Hit> := if Matches(entries[k], project, q) then [Hit(entries[k], project, d.slug)] else [];
        AppendAssoc(found, MatchingHits(project, d.slug, entries[..k], q), hit);
        results := results + hit;
      }
      assert entries[..|entries|] == entries;
    }

    /** The middle loop of searchEntries: pushes the hits of every dimension of one project. */
    method CollectProject(found: seq<Hit>, project: ProjectMeta, q: string) returns (results: seq<Hit>)
      ensures results == found + ProjectHits(project, Dims(project.slug), q)
    {
      var dimensions := Dims(project.slug);
      results := found;
      for j := 0 to |dimensions|
        invariant results == found + ProjectHits(project, dimensions[..j], q)
      {
        assert dimensions[..j + 1][..j] == dimensions[..j];
        AppendAssoc(found, ProjectHits(project, dimensions[..j], q), DimensionHits(project, dimensions[j], q));
        results := CollectDimension(results, project, dimensions[j], q);
      }
      assert dimensions[..|dimensions|] == dimensions;
    }

    /**
     * searchEntries: the matching entries of every dimension of every
     * project, deduplicated and sorted newest first.
     */
    method SearchEntries(query: string) returns (results: seq<Hit>)
      ensures results == SortDesc(Dedup(AllHits(Projects(), Lower(query))), Timestamp)
      ensures DistinctKeys(results)
      ensures SortedDesc(results, Timestamp)
      ensures AllMatch(results, Lower(query))
      ensures Keys(results) == Keys(AllHits(Projects(), Lower(query)))
    {
      var projects := ListProjects();
      var q := Lower(query);
      var found: seq<Hit> := [];
      for i := 0 to |projects|
        invariant found == AllHits(projects[..i], q)
      {
        assert projects[..i + 1][..i] == projects[..i];
        found := CollectProject(found, projects[i], q);
      }
      assert projects[..|projects|] == projects;
      var deduped := Deduplicate(found);
      results := SortDesc(deduped, Timestamp);
      AllHitsMatch(projects, q);
      SearchResults(found, q);
    }
  }
}
