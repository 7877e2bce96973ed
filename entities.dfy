/** The rows the admin handlers of anitya/admin.py read and write, and the
    store as one value (`Tables`): distros, projects, project versions,
    distro package mappings, flags and the audit log. */
module Entities {
  import opened Wrappers

  type ProjectId = nat
  type FlagId = nat

  /** A project; `latestVersion` is the nullable `latest_version` column. */
  datatype Project = Project(name: string, latestVersion: Option<string>)

  /** A version row: identified by its project and its version text. */
  datatype Version = Version(project: ProjectId, version: string)

  /** A mapping of a project onto a distro's package name. */
  datatype Package = Package(project: ProjectId, distro: string, name: string)

  datatype FlagState = Open | Closed

  /** A user's report against a project. */
  datatype Flag = Flag(state: FlagState, project: ProjectId, user: string)

  /** The text form of a flag state, as the route argument carries it. */
  function StateName(s: FlagState): string
  {
    match s
    case Open => "open"
    case Closed => "closed"
  }

  /** The route argument read as a flag state: only "open" and "closed"
      are states. */
  function ParseState(s: string): Option<FlagState>
  {
    if s == "open" then Some(Open)
    else if s == "closed" then Some(Closed)
    else None
  }

  /** ParseState and StateName are inverse to each other on the two
      accepted texts, and nothing else parses. */
  lemma ParseStateInverse(s: string, st: FlagState)
    ensures ParseState(StateName(st)) == Some(st)
    ensures ParseState(s).Some? <==> s == StateName(Open) || s == StateName(Closed)
    ensures ParseState(s) == Some(st) ==> StateName(st) == s
  {
  }

  /** The message of an audit entry, one variant per topic, each with the
      fields the handler writes besides the agent. */
  datatype Event =
    | DistroAdded(distro: string)
    | DistroEdited(oldName: string, newName: string)
    | DistroRemoved(distro: string)
    | ProjectRemoved(project: string)
    | MappingRemoved(project: string, distro: string)
    | VersionRemoved(project: string, version: string)
    | FlagStateSet(flag: FlagId, state: FlagState)

  function Topic(e: Event): string
  {
    match e
    case DistroAdded(_) => "distro.add"
    case DistroEdited(_, _) => "distro.edit"
    case DistroRemoved(_) => "distro.remove"
    case ProjectRemoved(_) => "project.remove"
    case MappingRemoved(_, _) => "project.map.remove"
    case VersionRemoved(_, _) => "project.version.remove"
    case FlagStateSet(_, _) => "flag.state.set"
  }

  /** An audit entry: who acted, what happened, and the project or distro
      it is filed under. */
  datatype LogEntry = LogEntry(agent: string, event: Event, project: Option<ProjectId>, distro: Option<string>)

  /** Everything the handlers can see in the database, as one value. */
  datatype Tables = Tables(
    distros: set<string>,
    projects: map<ProjectId, Project>,
    versions: seq<Version>,
    packages: set<Package>,
    flags: map<FlagId, Flag>,
    log: seq<LogEntry>)

  /** No version row occurs twice. */
  predicate Unique(rows: seq<Version>)
  {
    rows == [] || (rows[0] !in rows[1..] && Unique(rows[1..]))
  }

  /** What the database's keys guarantee: version rows are unique and each
      belongs to a live project. */
  predicate Consistent(t: Tables)
  {
    && Unique(t.versions)
    && forall v :: v in t.versions ==> v.project in t.projects
  }

  /** The latest-version invariant: a project's `latest_version`, when set,
      names one of that project's version rows. */
  predicate LatestLive(t: Tables)
  {
    forall id :: id in t.projects && t.projects[id].latestVersion.Some? ==>
      Version(id, t.projects[id].latestVersion.value) in t.versions
  }

  // ---------------------------------------------------------------------
  // Version rows
  // ---------------------------------------------------------------------

  /** `project.versions_obj`: the version texts of one project, in table
      order. */
  function VersionsOf(rows: seq<Version>, id: ProjectId): (vs: seq<string>)
    ensures forall v :: v in vs <==> Version(id, v) in rows
  {
    if rows == [] then []
    else
      assert rows == [rows[0]] + rows[1..];
      (if rows[0].project == id then [rows[0].version] else []) + VersionsOf(rows[1..], id)
  }

  /** `Session.delete(row)`: the table without that row. */
  function WithoutRow(rows: seq<Version>, x: Version): (r: seq<Version>)
    ensures forall v :: v in r <==> v in rows && v != x
    ensures Unique(rows) ==> Unique(r)
  {
    if rows == [] then []
    else
      assert rows == [rows[0]] + rows[1..];
      var rest := WithoutRow(rows[1..], x);
      if rows[0] == x then rest
      else
        assert ([rows[0]] + rest)[1..] == rest;
        [rows[0]] + rest
  }

  /** The table without any row of project `id`. */
  function WithoutProject(rows: seq<Version>, id: ProjectId): (r: seq<Version>)
    ensures forall v :: v in r <==> v in rows && v.project != id
    ensures Unique(rows) ==> Unique(r)
  {
    if rows == [] then []
    else
      assert rows == [rows[0]] + rows[1..];
      var rest := WithoutProject(rows[1..], id);
      if rows[0].project == id then rest
      else
        assert ([rows[0]] + rest)[1..] == rest;
        [rows[0]] + rest
  }

  /** The table once the rows of project `id` whose versions are in `gone`
      have been deleted. */
  function Prune(rows: seq<Version>, id: ProjectId, gone: seq<string>): seq<Version>
  {
    if rows == [] then []
    else
      var rest := Prune(rows[1..], id, gone);
      if rows[0].project == id && rows[0].version in gone then rest
      else [rows[0]] + rest
  }

  lemma {:induction false} PruneNothing(rows: seq<Version>, id: ProjectId)
    ensures Prune(rows, id, []) == rows
  {
    if rows != [] {
      PruneNothing(rows[1..], id);
      assert rows == [rows[0]] + rows[1..];
    }
  }

  /** Deleting one more version row of the project extends what has been
      pruned by that version. */
  lemma {:induction false} PruneStep(rows: seq<Version>, id: ProjectId, gone: seq<string>, x: string)
    ensures WithoutRow(Prune(rows, id, gone), Version(id, x)) == Prune(rows, id, gone + [x])
  {
    if rows != [] {
      PruneStep(rows[1..], id, gone, x);
      var rest := Prune(rows[1..], id, gone);
      if !(rows[0].project == id && rows[0].version in gone) {
        assert ([rows[0]] + rest)[1..] == rest;
      }
    }
  }

  /** Once every version of the project has been pruned, no row of the
      project is left and every other row is kept in order. */
  lemma {:induction false} PruneAll(rows: seq<Version>, id: ProjectId, gone: seq<string>)
    requires forall v :: v in VersionsOf(rows, id) ==> v in gone
    ensures Prune(rows, id, gone) == WithoutProject(rows, id)
  {
    if rows != [] {
      assert rows == [rows[0]] + rows[1..];
      forall v | v in VersionsOf(rows[1..], id) ensures v in gone {
        assert Version(id, v) in rows[1..];
        assert Version(id, v) in rows;
      }
      PruneAll(rows[1..], id, gone);
      if rows[0].project == id {
        assert rows[0].version in VersionsOf(rows, id);
      }
    }
  }
}
