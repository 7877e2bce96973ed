/** What each admin handler of anitya/admin.py does to the store, as a
    function from the tables before the request to the outcome and the
    tables after it, and the properties the handlers share: the order of
    the checks, the confirmation gate, one audit entry per change, and the
    repair of the latest-version invariant. */
module Moderation {
  import opened Wrappers
  import opened Entities

  /** The request as the handlers see it: the logged-in user's name,
      whether that user is an admin, whether the posted form validates,
      and the form's `confirm` field. */
  datatype Request = Request(agent: string, isAdmin: bool, formValid: bool, confirm: bool)

  /** What the handler answers:
      NotFound (404), NotAuthorized (401), Unprocessable (422),
      ShowForm (the form page is rendered), Cancelled (redirect without a
      change), Unchanged (redirect, the submitted name was the old one),
      Conflict (add refused by the database, flashed, rolled back),
      Rejected (the flag helper refused, flashed), StorageError (a commit
      refused and not caught), Done (committed, flashed). */
  datatype Outcome =
    | NotFound
    | NotAuthorized
    | Unprocessable
    | ShowForm
    | Cancelled
    | Unchanged
    | Conflict
    | Rejected
    | StorageError
    | Done

  datatype Response = Response(outcome: Outcome, after: Tables)

  /** One admin request, by handler. `helperFails` stands for the helper
      `utilities.set_flag_state` raising its domain exception. */
  datatype Action =
    | AddDistro(name: string)
    | EditDistro(distro: string, newName: string)
    | DeleteDistro(distro: string)
    | DeleteProject(project: ProjectId)
    | DeleteMapping(project: ProjectId, distro: string, package: string)
    | DeleteVersion(project: ProjectId, version: string)
    | SetFlagState(flag: FlagId, state: string, helperFails: bool)

  function AddDistroSpec(t: Tables, r: Request, name: string): Response
  {
    if !r.isAdmin then Response(NotAuthorized, t)
    else if !r.formValid then Response(ShowForm, t)
    else if name in t.distros then Response(Conflict, t)
    else Response(Done, t.(
      distros := t.distros + {name},
      log := t.log + [LogEntry(r.agent, DistroAdded(name), None, Some(name))]))
  }

  function EditDistroSpec(t: Tables, r: Request, distro: string, newName: string): Response
  {
    if distro !in t.distros then Response(NotFound, t)
    else if !r.isAdmin then Response(NotAuthorized, t)
    else if !r.formValid then Response(ShowForm, t)
    else if newName == distro then Response(Unchanged, t)
    else if newName in t.distros then Response(StorageError, t)
    else Response(Done, t.(
      distros := t.distros - {distro} + {newName},
      log := t.log + [LogEntry(r.agent, DistroEdited(distro, newName), None, Some(distro))]))
  }

  function DeleteDistroSpec(t: Tables, r: Request, distro: string): Response
  {
    if distro !in t.distros then Response(NotFound, t)
    else if !r.isAdmin then Response(NotAuthorized, t)
    else if !r.formValid then Response(ShowForm, t)
    else Response(Done, t.(
      distros := t.distros - {distro},
      log := t.log + [LogEntry(r.agent, DistroRemoved(distro), None, Some(distro))]))
  }

  function DeleteProjectSpec(t: Tables, r: Request, id: ProjectId): Response
  {
    if id !in t.projects then Response(NotFound, t)
    else if !r.isAdmin then Response(NotAuthorized, t)
    else if !r.formValid then Response(ShowForm, t)
    else if !r.confirm then Response(Cancelled, t)
    else Response(Done, t.(
      projects := t.projects - {id},
      versions := WithoutProject(t.versions, id),
      log := t.log + [LogEntry(r.agent, ProjectRemoved(t.projects[id].name), Some(id), None)]))
  }

  function DeleteMappingSpec(t: Tables, r: Request, id: ProjectId, distro: string, package: string): Response
  {
    if id !in t.projects then Response(NotFound, t)
    else if distro !in t.distros then Response(NotFound, t)
    else if Package(id, distro, package) !in t.packages then Response(NotFound, t)
    else if !r.isAdmin then Response(NotAuthorized, t)
    else if !r.formValid then Response(ShowForm, t)
    else if !r.confirm then Response(Cancelled, t)
    else Response(Done, t.(
      packages := t.packages - {Package(id, distro, package)},
      log := t.log + [LogEntry(r.agent, MappingRemoved(t.projects[id].name, distro), Some(id), None)]))
  }

  /** The project once version `v` is gone: `latest_version` is cleared
      when it named `v`. */
  function RepairLatest(p: Project, v: string): Project
  {
    if p.latestVersion == Some(v) then p.(latestVersion := None) else p
  }

  function DeleteVersionSpec(t: Tables, r: Request, id: ProjectId, v: string): Response
  {
    if id !in t.projects then Response(NotFound, t)
    else if v !in VersionsOf(t.versions, id) then Response(NotFound, t)
    else if !r.isAdmin then Response(NotAuthorized, t)
    else if !r.formValid then Response(ShowForm, t)
    else if !r.confirm then Response(Cancelled, t)
    else Response(Done, t.(
      projects := t.projects[id := RepairLatest(t.projects[id], v)],
      versions := WithoutRow(t.versions, Version(id, v)),
      log := t.log + [LogEntry(r.agent, VersionRemoved(t.projects[id].name, v), Some(id), None)]))
  }

  function SetFlagStateSpec(t: Tables, r: Request, id: FlagId, state: string, helperFails: bool): Response
  {
    if !r.isAdmin then Response(NotAuthorized, t)
    else if ParseState(state).None? then Response(Unprocessable, t)
    else if id !in t.flags then Response(NotFound, t)
    else if !r.formValid then Response(Cancelled, t)
    else if helperFails then Response(Rejected, t)
    else
      var st := ParseState(state).value;
      Response(Done, t.(
        flags := t.flags[id := t.flags[id].(state := st)],
        log := t.log + [LogEntry(r.agent, FlagStateSet(id, st), Some(t.flags[id].project), None)]))
  }

  function Handle(t: Tables, r: Request, a: Action): Response
  {
    match a
    case AddDistro(name) => AddDistroSpec(t, r, name)
    case EditDistro(distro, newName) => EditDistroSpec(t, r, distro, newName)
    case DeleteDistro(distro) => DeleteDistroSpec(t, r, distro)
    case DeleteProject(id) => DeleteProjectSpec(t, r, id)
    case DeleteMapping(id, distro, package) => DeleteMappingSpec(t, r, id, distro, package)
    case DeleteVersion(id, v) => DeleteVersionSpec(t, r, id, v)
    case SetFlagState(id, state, helperFails) => SetFlagStateSpec(t, r, id, state, helperFails)
  }

  /** The audit topic each handler writes. */
  function TopicOf(a: Action): string
  {
    match a
    case AddDistro(_) => "distro.add"
    case EditDistro(_, _) => "distro.edit"
    case DeleteDistro(_) => "distro.remove"
    case DeleteProject(_) => "project.remove"
    case DeleteMapping(_, _, _) => "project.map.remove"
    case DeleteVersion(_, _) => "project.version.remove"
    case SetFlagState(_, _, _) => "flag.state.set"
  }

  /** The entity a handler looks up before anything else (the flag handler
      looks its flag up only after the admin and state checks). */
  predicate TargetExists(t: Tables, a: Action)
  {
    match a
    case AddDistro(_) => true
    case EditDistro(distro, _) => distro in t.distros
    case DeleteDistro(distro) => distro in t.distros
    case DeleteProject(id) => id in t.projects
    case DeleteMapping(id, distro, package) =>
      id in t.projects && distro in t.distros && Package(id, distro, package) in t.packages
    case DeleteVersion(id, v) => id in t.projects && v in VersionsOf(t.versions, id)
    case SetFlagState(id, _, _) => id in t.flags
  }

  // ---------------------------------------------------------------------
  // Properties shared by all handlers
  // ---------------------------------------------------------------------

  /** Exactly one audit entry per real change: the tables change only when
      the handler answers Done, and then the log gains exactly one entry,
      written by the acting user under the handler's topic, after the old
      entries, which stay as they were. */
  lemma AuditOncePerChange(t: Tables, r: Request, a: Action)
    ensures var res := Handle(t, r, a);
      res.outcome != Done ==> res.after == t
    ensures var res := Handle(t, r, a);
      res.outcome == Done ==>
        && |res.after.log| == |t.log| + 1
        && res.after.log[..|t.log|] == t.log
        && res.after.log[|t.log|].agent == r.agent
        && Topic(res.after.log[|t.log|].event) == TopicOf(a)
  {
    var res := Handle(t, r, a);
    if res.outcome == Done {
      var e := res.after.log[|res.after.log| - 1];
      match a {
        case AddDistro(name) =>
          assert res.after.log == t.log + [e];
        case EditDistro(distro, newName) =>
          assert res.after.log == t.log + [e];
        case DeleteDistro(distro) =>
          assert res.after.log == t.log + [e];
        case DeleteProject(id) =>
          assert res.after.log == t.log + [e];
        case DeleteMapping(id, distro, package) =>
          assert res.after.log == t.log + [e];
        case DeleteVersion(id, v) =>
          assert res.after.log == t.log + [e];
        case SetFlagState(id, state, helperFails) =>
          assert res.after.log == t.log + [e];
      }
      assert res.after.log[..|t.log|] == t.log;
    }
  }

  /** Every handler keeps the database's key guarantees: no version row
      twice and none without its project (a project's versions are deleted
      with it). */
  lemma ConsistencyKept(t: Tables, r: Request, a: Action)
    requires Consistent(t)
    ensures Consistent(Handle(t, r, a).after)
  {
  }

  /** Every handler keeps the latest-version invariant; deleting a version
      is the one that has to repair it. */
  lemma LatestLiveKept(t: Tables, r: Request, a: Action)
    requires LatestLive(t)
    ensures LatestLive(Handle(t, r, a).after)
  {
    var t' := Handle(t, r, a).after;
    if a.DeleteVersion? && Handle(t, r, a).outcome == Done {
      forall id | id in t'.projects && t'.projects[id].latestVersion.Some?
        ensures Version(id, t'.projects[id].latestVersion.value) in t'.versions
      {
        var w := t'.projects[id].latestVersion.value;
        assert t.projects[id].latestVersion == Some(w);
        assert Version(id, w) != Version(a.project, a.version);
      }
    }
  }

  /** The handlers for distros, projects, mappings and versions look their
      target up before they check the user: a missing target is NotFound
      for every user, admin or not, and nothing changes. */
  lemma LookupBeforeAdminCheck(t: Tables, r: Request, a: Action)
    requires !a.AddDistro? && !a.SetFlagState?
    requires !TargetExists(t, a)
    ensures Handle(t, r, a) == Response(NotFound, t)
  {
  }

  /** A user who is not an admin is refused with nothing changed by every
      handler whose target exists, and by the add and flag handlers
      whatever the request names. */
  lemma NonAdminRefused(t: Tables, r: Request, a: Action)
    requires !r.isAdmin
    requires TargetExists(t, a) || a.SetFlagState?
    ensures Handle(t, r, a) == Response(NotAuthorized, t)
  {
  }

  /** The flag handler checks the user, then the state text, then the flag:
      an admin naming a state other than "open" or "closed" gets 422 with
      nothing changed, whether the flag exists or not. */
  lemma FlagStateCheckedBeforeLookup(t: Tables, r: Request, id: FlagId, state: string, helperFails: bool)
    requires r.isAdmin
    requires state != "open" && state != "closed"
    ensures Handle(t, r, SetFlagState(id, state, helperFails)) == Response(Unprocessable, t)
  {
  }

  /** The destructive handlers for projects, mappings and versions want
      `confirm` besides a valid form: without it they redirect and change
      nothing. The distro delete has no such gate. */
  lemma UnconfirmedDeleteCancelled(t: Tables, r: Request, a: Action)
    requires a.DeleteProject? || a.DeleteMapping? || a.DeleteVersion?
    requires TargetExists(t, a) && r.isAdmin && r.formValid && !r.confirm
    ensures Handle(t, r, a) == Response(Cancelled, t)
  {
  }

  lemma DistroDeleteNeedsNoConfirm(t: Tables, r: Request, distro: string)
    requires distro in t.distros && r.isAdmin && r.formValid && !r.confirm
    ensures Handle(t, r, DeleteDistro(distro)).outcome == Done
    ensures distro !in Handle(t, r, DeleteDistro(distro)).after.distros
  {
  }

  // ---------------------------------------------------------------------
  // Properties of single handlers
  // ---------------------------------------------------------------------

  /** Adding a distro whose name is taken is refused by the database: the
      handler reports it, and the rollback also drops the audit entry
      queued before the commit. A free name is added with one entry. */
  lemma AddDistroOutcome(t: Tables, r: Request, name: string)
    requires r.isAdmin && r.formValid
    ensures name in t.distros ==> Handle(t, r, AddDistro(name)) == Response(Conflict, t)
    ensures name !in t.distros ==>
      var res := Handle(t, r, AddDistro(name));
      res.outcome == Done && res.after.distros == t.distros + {name}
      && res.after.log == t.log + [LogEntry(r.agent, DistroAdded(name), None, Some(name))]
  {
  }

  /** Editing a distro renames it and audits the rename only when the new
      name differs from the old one; the same name changes nothing and
      writes nothing, and a name already taken fails at the commit with
      nothing changed. */
  lemma EditDistroOutcome(t: Tables, r: Request, distro: string, newName: string)
    requires distro in t.distros && r.isAdmin && r.formValid
    ensures var res := Handle(t, r, EditDistro(distro, newName));
      (res.outcome == Done) <==> newName != distro && newName !in t.distros
    ensures newName == distro ==> Handle(t, r, EditDistro(distro, newName)) == Response(Unchanged, t)
    ensures newName != distro && newName in t.distros ==>
      Handle(t, r, EditDistro(distro, newName)) == Response(StorageError, t)
    ensures var res := Handle(t, r, EditDistro(distro, newName));
      res.outcome == Done ==>
        && distro !in res.after.distros && newName in res.after.distros
        && res.after.distros - {newName} == t.distros - {distro}
        && res.after.log[|t.log|].event == DistroEdited(distro, newName)
  {
  }

  /** A confirmed project delete removes the project and every one of its
      versions, keeps every other project and version row, and writes one
      `project.remove` entry with the agent and the project's name. The
      handler deletes nothing else: the distros, the project's package
      mappings and its flags are left as they were. */
  lemma DeleteProjectCascades(t: Tables, r: Request, id: ProjectId)
    requires id in t.projects && r.isAdmin && r.formValid && r.confirm
    ensures var res := Handle(t, r, DeleteProject(id));
      && res.outcome == Done
      && id !in res.after.projects
      && (forall p :: p in t.projects && p != id ==> p in res.after.projects && res.after.projects[p] == t.projects[p])
      && (forall v :: v in res.after.versions ==> v.project != id)
      && (forall v :: v in res.after.versions <==> v in t.versions && v.project != id)
      && res.after.log == t.log + [LogEntry(r.agent, ProjectRemoved(t.projects[id].name), Some(id), None)]
      && res.after.distros == t.distros && res.after.packages == t.packages && res.after.flags == t.flags
  {
  }

  /** A confirmed version delete removes exactly that row and clears the
      project's `latest_version` exactly when it named the deleted
      version; otherwise `latest_version` is kept, no other project
      changes, one `project.version.remove` entry is written, and the
      other tables are left as they were. */
  lemma DeleteVersionRepairsLatest(t: Tables, r: Request, id: ProjectId, v: string)
    requires id in t.projects && Version(id, v) in t.versions
    requires r.isAdmin && r.formValid && r.confirm
    ensures var res := Handle(t, r, DeleteVersion(id, v));
      && res.outcome == Done
      && res.after.projects.Keys == t.projects.Keys
      && res.after.projects[id].name == t.projects[id].name
      && (res.after.projects[id].latestVersion.None? <==>
            t.projects[id].latestVersion == Some(v) || t.projects[id].latestVersion.None?)
      && (res.after.projects[id].latestVersion.Some? ==>
            res.after.projects[id].latestVersion == t.projects[id].latestVersion)
      && (forall p :: p in t.projects && p != id ==> res.after.projects[p] == t.projects[p])
      && (forall w :: w in res.after.versions <==> w in t.versions && w != Version(id, v))
      && res.after.log == t.log + [LogEntry(r.agent, VersionRemoved(t.projects[id].name, v), Some(id), None)]
      && res.after.distros == t.distros && res.after.packages == t.packages && res.after.flags == t.flags
  {
  }

  /** A version the project does not have is NotFound, with no change and
      no audit entry, whoever asks. */
  lemma DeleteMissingVersion(t: Tables, r: Request, id: ProjectId, v: string)
    requires Version(id, v) !in t.versions
    ensures Handle(t, r, DeleteVersion(id, v)) == Response(NotFound, t)
  {
  }

  /** Setting a flag's state changes that flag's state, keeps its project
      and user and every other flag and table, and the log records the
      flag and the new state under the flag's project. */
  lemma SetFlagStateOutcome(t: Tables, r: Request, id: FlagId, st: FlagState)
    requires r.isAdmin && r.formValid && id in t.flags
    ensures var res := Handle(t, r, SetFlagState(id, StateName(st), false));
      && res.outcome == Done
      && res.after.flags.Keys == t.flags.Keys
      && res.after.flags[id].state == st
      && res.after.flags[id] == t.flags[id].(state := st)
      && (forall f :: f in t.flags && f != id ==> res.after.flags[f] == t.flags[f])
      && res.after.log == t.log + [LogEntry(r.agent, FlagStateSet(id, st), Some(t.flags[id].project), None)]
      && res.after.distros == t.distros && res.after.projects == t.projects
      && res.after.versions == t.versions && res.after.packages == t.packages
  {
    ParseStateInverse(StateName(st), st);
  }

  /** Project "foo" with versions "1.0" and "2.0" and latest "2.0":
      deleting "2.0" clears the latest version and writes one
      `project.version.remove` entry; deleting "1.0" keeps "2.0". */
  lemma LatestVersionExample(r: Request)
    requires r.isAdmin && r.formValid && r.confirm
    ensures var t := Tables({}, map[1 := Project("foo", Some("2.0"))],
                            [Version(1, "1.0"), Version(1, "2.0")], {}, map[], []);
      var two := Handle(t, r, DeleteVersion(1, "2.0"));
      var one := Handle(t, r, DeleteVersion(1, "1.0"));
      && two.outcome == Done && two.after.projects[1].latestVersion == None
      && |two.after.log| == 1 && Topic(two.after.log[0].event) == "project.version.remove"
      && one.outcome == Done && one.after.projects[1].latestVersion == Some("2.0")
  {
    var t := Tables({}, map[1 := Project("foo", Some("2.0"))],
                    [Version(1, "1.0"), Version(1, "2.0")], {}, map[], []);
    DeleteVersionRepairsLatest(t, r, 1, "2.0");
    DeleteVersionRepairsLatest(t, r, 1, "1.0");
  }
}
