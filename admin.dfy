/** The admin handlers of anitya/admin.py as methods on the store they
    change. The store's fields are the tables; each method takes the steps
    its handler takes (lookups, checks, the queued audit entry, the
    deletes and field updates, the commit or the rollback) and is proved to
    end where the reference definition in module Moderation says. */
module Admin {
  import opened Wrappers
  import opened Entities
  import opened Moderation

  /** The search of delete_project_version: the first position whose text
      is exactly `v`, or None when no version matches. */
  method FirstMatch(vs: seq<string>, v: string) returns (k: Option<nat>)
    ensures k.Some? ==> k.value < |vs| && vs[k.value] == v && v !in vs[..k.value]
    ensures k.None? ==> v !in vs
  {
    var i := 0;
    while i < |vs|
      invariant 0 <= i <= |vs|
      invariant v !in vs[..i]
    {
      if vs[i] == v {
        return Some(i);
      }
      assert vs[..i + 1] == vs[..i] + [vs[i]];
      i := i + 1;
    }
    assert vs[..i] == vs;
    return None;
  }

  class Store {
    var distros: set<string>
    var projects: map<ProjectId, Project>
    var versions: seq<Version>
    var packages: set<Package>
    var flags: map<FlagId, Flag>
    var log: seq<LogEntry>

    /** The committed state of the database. */
    function Current(): Tables
      reads this
    {
      Tables(distros, projects, versions, packages, flags, log)
    }

    predicate Valid()
      reads this
    {
      Consistent(Current())
    }

    constructor (t: Tables)
      requires Consistent(t)
      ensures Valid() && Current() == t
    {
      distros, projects, versions := t.distros, t.projects, t.versions;
      packages, flags, log := t.packages, t.flags, t.log;
    }

    /** `Session.rollback()`: every change since `snapshot` is discarded. */
    method Rollback(snapshot: Tables)
      modifies this
      ensures Current() == snapshot
    {
      distros, projects, versions := snapshot.distros, snapshot.projects, snapshot.versions;
      packages, flags, log := snapshot.packages, snapshot.flags, snapshot.log;
    }

    method AddDistro(r: Request, name: string) returns (o: Outcome)
      requires Valid()
      modifies this
      ensures Valid()
      ensures Response(o, Current()) == AddDistroSpec(old(Current()), r, name)
    {
      if !r.isAdmin {
        return NotAuthorized;
      }
      if !r.formValid {
        return ShowForm;
      }
      var snapshot := Current();
      log := log + [LogEntry(r.agent, DistroAdded(name), None, Some(name))];
      // The commit is refused when the name is already a distro's.
      if name in distros {
        Rollback(snapshot);
        return Conflict;
      }
      distros := distros + {name};
      o := Done;
    }

    method EditDistro(r: Request, distro: string, newName: string) returns (o: Outcome)
      requires Valid()
      modifies this
      ensures Valid()
      ensures Response(o, Current()) == EditDistroSpec(old(Current()), r, distro, newName)
    {
      if distro !in distros {
        return NotFound;
      }
      if !r.isAdmin {
        return NotAuthorized;
      }
      if !r.formValid {
        return ShowForm;
      }
      if newName == distro {
        return Unchanged;
      }
      var snapshot := Current();
      log := log + [LogEntry(r.agent, DistroEdited(distro, newName), None, Some(distro))];
      distros := distros - {distro} + {newName};
      // The commit is refused when another distro already has the name;
      // the handler does not catch that, and nothing is committed.
      if newName in snapshot.distros {
        Rollback(snapshot);
        return StorageError;
      }
      o := Done;
    }

    method DeleteDistro(r: Request, distro: string) returns (o: Outcome)
      requires Valid()
      modifies this
      ensures Valid()
      ensures Response(o, Current()) == DeleteDistroSpec(old(Current()), r, distro)
    {
      if distro !in distros {
        return NotFound;
      }
      if !r.isAdmin {
        return NotAuthorized;
      }
      if !r.formValid {
        return ShowForm;
      }
      log := log + [LogEntry(r.agent, DistroRemoved(distro), None, Some(distro))];
      distros := distros - {distro};
      o := Done;
    }

    /** The loop of delete_project: deletes the project's version rows one
        at a time, in the order `project.versions_obj` lists them. */
    method DeleteVersionRows(id: ProjectId)
      modifies this`versions
      ensures versions == WithoutProject(old(versions), id)
    {
      var before := versions;
      var owned := VersionsOf(before, id);
      var rows := before;  // the session's view of the table until the commit
      PruneNothing(before, id);
      var i := 0;
      while i < |owned|
        invariant 0 <= i <= |owned|
        invariant rows == Prune(before, id, owned[..i])
      {
        PruneStep(before, id, owned[..i], owned[i]);
        assert owned[..i + 1] == owned[..i] + [owned[i]];
        rows := WithoutRow(rows, Version(id, owned[i]));
        i := i + 1;
      }
      assert owned[..i] == owned;
      PruneAll(before, id, owned);
      versions := rows;
    }

    /** Deletes the project's version rows, then the project. */
    method DeleteProject(r: Request, id: ProjectId) returns (o: Outcome)
      requires Valid()
      modifies this
      ensures Valid()
      ensures Response(o, Current()) == DeleteProjectSpec(old(Current()), r, id)
    {
      if id !in projects {
        return NotFound;
      }
      if !r.isAdmin {
        return NotAuthorized;
      }
      if !r.formValid {
        return ShowForm;
      }
      if !r.confirm {
        return Cancelled;
      }
      var project := projects[id];
      log := log + [LogEntry(r.agent, ProjectRemoved(project.name), Some(id), None)];
      DeleteVersionRows(id);
      projects := projects - {id};
      o := Done;
    }

    method DeleteMapping(r: Request, id: ProjectId, distro: string, package: string) returns (o: Outcome)
      requires Valid()
      modifies this
      ensures Valid()
      ensures Response(o, Current()) == DeleteMappingSpec(old(Current()), r, id, distro, package)
    {
      if id !in projects {
        return NotFound;
      }
      if distro !in distros {
        return NotFound;
      }
      var row := Package(id, distro, package);
      if row !in packages {
        return NotFound;
      }
      if !r.isAdmin {
        return NotAuthorized;
      }
      if !r.formValid {
        return ShowForm;
      }
      if !r.confirm {
        return Cancelled;
      }
      log := log + [LogEntry(r.agent, MappingRemoved(projects[id].name, distro), Some(id), None)];
      packages := packages - {row};
      o := Done;
    }

    /** Finds the version among the project's own, deletes that row and
        clears `latest_version` when it named the deleted version. */
    method DeleteVersion(r: Request, id: ProjectId, version: string) returns (o: Outcome)
      requires Valid()
      modifies this
      ensures Valid()
      ensures Response(o, Current()) == DeleteVersionSpec(old(Current()), r, id, version)
    {
      if id !in projects {
        return NotFound;
      }
      var project := projects[id];
      var owned := VersionsOf(versions, id);
      var found := FirstMatch(owned, version);
      if found.None? {
        return NotFound;
      }
      if !r.isAdmin {
        return NotAuthorized;
      }
      if !r.formValid {
        return ShowForm;
      }
      if !r.confirm {
        return Cancelled;
      }
      log := log + [LogEntry(r.agent, VersionRemoved(project.name, version), Some(id), None)];
      versions := WithoutRow(versions, Version(id, owned[found.value]));
      if project.latestVersion == Some(version) {
        projects := projects[id := project.(latestVersion := None)];
      }
      o := Done;
    }

    /** `helperFails` stands for `utilities.set_flag_state` raising its
        domain exception, which the handler catches and flashes. */
    method SetFlagState(r: Request, id: FlagId, state: string, helperFails: bool) returns (o: Outcome)
      requires Valid()
      modifies this
      ensures Valid()
      ensures Response(o, Current()) == SetFlagStateSpec(old(Current()), r, id, state, helperFails)
    {
      if !r.isAdmin {
        return NotAuthorized;
      }
      var st := ParseState(state);
      if st.None? {
        return Unprocessable;
      }
      if id !in flags {
        return NotFound;
      }
      if !r.formValid {
        return Cancelled;
      }
      if helperFails {
        return Rejected;
      }
      var flag := flags[id];
      flags := flags[id := flag.(state := st.value)];
      log := log + [LogEntry(r.agent, FlagStateSet(id, st.value), Some(flag.project), None)];
      o := Done;
    }
  }
}
