/** The reconciliation rules of src/project/ProjectManager.js: the status of
    the project's packages against bower.json, the prune-then-install plan that
    brings the folder in line with bower.json, and the rules that move the
    active directory. The module-level `_bowerProject` is the `bowerProject`
    field of a `Manager`; the notifications it triggers are recorded in `events`. */
module ProjectManager {

  import opened Outcomes
  import opened Packages
  import Paths
  import Project

  /** What `checkProjectStatus` returns. */
  datatype ProjectStatus = ProjectStatus(status: int, untracked: seq<Pkg>, missing: seq<Pkg>)

  /** The Project Tree's selected item, as far as the active directory needs it. */
  datatype SelectedItem = SelectedItem(isDirectory: bool, fullPath: string, parentPath: string)

  /** The external steps `synchronizeWithBowerJson` starts. */
  datatype ExternalCall = Prune | InstallFromBowerJson

  /** How the promise `synchronizeWithBowerJson` returns ends: resolved,
      rejected with an error, never settled, or not returned at all because
      the call threw before creating it. */
  datatype Completion = Resolved | Rejected(error: Error) | Pending | Threw(error: Error)

  /** A package `checkProjectStatus` counts as missing: not reported as not
      tracked (that test comes first) but reported as missing. */
  predicate IsMissingOnly(p: Pkg) { !p.notTracked && p.missing }

  /** The `forEach` loop of `checkProjectStatus`: each package goes to
      `untracked` when it is not tracked, else to `missing` when it is missing,
      else nowhere. */
  method SplitByStatus(packages: seq<Pkg>) returns (untracked: seq<Pkg>, missing: seq<Pkg>)
    ensures untracked == Where(packages, IsNotTracked)
    ensures missing == Where(packages, IsMissingOnly)
    ensures |untracked| + |missing| <= |packages|
  {
    untracked, missing := [], [];
    var i := 0;
    while i < |packages|
      invariant 0 <= i <= |packages|
      invariant untracked == Where(packages[..i], IsNotTracked)
      invariant missing == Where(packages[..i], IsMissingOnly)
    {
      var pkg := packages[i];
      assert packages[..i + 1] == packages[..i] + [pkg];
      if pkg.notTracked {
        untracked := untracked + [pkg];
      } else if pkg.missing {
        missing := missing + [pkg];
      }
      i := i + 1;
    }
    assert packages[..|packages|] == packages;
    DisjointFiltersBounded(packages, IsNotTracked, IsMissingOnly);
  }

  class Manager {
    var bowerProject: Project.BowerProject?
    ghost var events: seq<Notification>

    ghost predicate Valid()
      reads this, bowerProject
    {
      bowerProject != null ==> bowerProject.Valid()
    }

    constructor (bowerProject: Project.BowerProject?)
      ensures this.bowerProject == bowerProject && events == []
    {
      this.bowerProject := bowerProject;
      events := [];
    }

    /** `_setActiveDir`: a path inside a `node_modules` or `bower_components`
        folder is ignored; any other path becomes the project's active
        directory and is announced with its short form. With no project the
        assignment throws a TypeError. */
    method SetActiveDir(path: string) returns (r: Outcome)
      requires Valid()
      modifies this, bowerProject
      ensures Valid()
      ensures bowerProject == old(bowerProject)
      ensures Paths.IsExcluded(path) ==> r == Pass && events == old(events)
      ensures Paths.IsExcluded(path) && bowerProject != null ==> unchanged(bowerProject)
      ensures !Paths.IsExcluded(path) && bowerProject == null ==> r == Fail(TypeError) && events == old(events)
      ensures !Paths.IsExcluded(path) && bowerProject != null ==>
                && r == Pass
                && bowerProject.activeDir == Some(path)
                && bowerProject.shortActiveDir == Some(Paths.ShortPath(path, bowerProject.rootPath))
                && bowerProject.packages == old(bowerProject.packages)
                && bowerProject.order == old(bowerProject.order)
                && bowerProject.events == old(bowerProject.events)
                && events == old(events) + [ActiveDirChanged(path, Paths.ShortPath(path, bowerProject.rootPath)), ProjectLoading]
    {
      if Paths.IsExcluded(path) {
        return Pass;
      }
      if bowerProject == null {
        return Fail(TypeError);
      }
      bowerProject.SetActiveDir(path);
      events := events + [ActiveDirChanged(path, bowerProject.shortActiveDir.value)];
      ConfigureBowerProject();
      r := Pass;
    }

    /** `_configureBowerProject`, up to its first asynchronous call: it announces
        that the project is loading; the reload that follows is not modelled. */
    method ConfigureBowerProject()
      modifies this
      ensures events == old(events) + [ProjectLoading]
      ensures bowerProject == old(bowerProject)
    {
      events := events + [ProjectLoading];
    }

    /** `updateActiveDirToSelection`: with no project nothing happens; otherwise
        the selected folder, or the folder holding the selected file, goes to
        `_setActiveDir`. With nothing selected, reading `isDirectory` of `null`
        throws a TypeError. */
    method UpdateActiveDirToSelection(selected: Option<SelectedItem>) returns (r: Outcome)
      requires Valid()
      modifies this, bowerProject
      ensures Valid()
      ensures bowerProject == old(bowerProject)
      ensures bowerProject == null ==> r == Pass && events == old(events)
      ensures bowerProject != null && selected.None? ==>
                r == Fail(TypeError) && unchanged(bowerProject) && events == old(events)
      ensures bowerProject != null && selected.Some? ==>
                var dir := if selected.value.isDirectory then selected.value.fullPath else selected.value.parentPath;
                && r == Pass
                && (Paths.IsExcluded(dir) ==> unchanged(bowerProject) && events == old(events))
                && (!Paths.IsExcluded(dir) ==>
                      && bowerProject.activeDir == Some(dir)
                      && bowerProject.shortActiveDir == Some(Paths.ShortPath(dir, bowerProject.rootPath))
                      && bowerProject.packages == old(bowerProject.packages)
                      && bowerProject.order == old(bowerProject.order)
                      && bowerProject.events == old(bowerProject.events)
                      && events == old(events) + [ActiveDirChanged(dir, Paths.ShortPath(dir, bowerProject.rootPath)), ProjectLoading])
    {
      if bowerProject == null {
        return Pass;
      }
      if selected.None? {
        return Fail(TypeError);
      }
      var item := selected.value;
      var activeDir;
      if item.isDirectory {
        activeDir := item.fullPath;
      } else {
        activeDir := item.parentPath;
      }
      r := SetActiveDir(activeDir);
    }

    /** `_fileNameChange`: when the active directory itself is renamed, the new
        name becomes the active directory (unless it is excluded). */
    method FileNameChange(oldName: string, newName: string)
      requires Valid()
      modifies this, bowerProject
      ensures Valid()
      ensures bowerProject == old(bowerProject)
      ensures bowerProject == null || old(bowerProject.activeDir) != Some(oldName) || Paths.IsExcluded(newName) ==>
                events == old(events) && (bowerProject != null ==> unchanged(bowerProject))
      ensures bowerProject != null && old(bowerProject.activeDir) == Some(oldName) && !Paths.IsExcluded(newName) ==>
                && bowerProject.activeDir == Some(newName)
                && bowerProject.shortActiveDir == Some(Paths.ShortPath(newName, bowerProject.rootPath))
                && bowerProject.packages == old(bowerProject.packages)
                && bowerProject.order == old(bowerProject.order)
                && bowerProject.events == old(bowerProject.events)
                && events == old(events) + [ActiveDirChanged(newName, Paths.ShortPath(newName, bowerProject.rootPath)), ProjectLoading]
    {
      if bowerProject != null && bowerProject.activeDir == Some(oldName) {
        var _ := SetActiveDir(newName);
      }
    }

    /** `_pathDeleted`: when the active directory itself is deleted, the project
        root becomes the active directory again (unless the root is excluded). */
    method PathDeleted(fullPath: string)
      requires Valid()
      modifies this, bowerProject
      ensures Valid()
      ensures bowerProject == old(bowerProject)
      ensures bowerProject == null || old(bowerProject.activeDir) != Some(fullPath) || Paths.IsExcluded(bowerProject.rootPath) ==>
                events == old(events) && (bowerProject != null ==> unchanged(bowerProject))
      ensures bowerProject != null && old(bowerProject.activeDir) == Some(fullPath) && !Paths.IsExcluded(bowerProject.rootPath) ==>
                && bowerProject.activeDir == Some(bowerProject.rootPath)
                && bowerProject.shortActiveDir == Some("")
                && bowerProject.GetPath() == bowerProject.rootPath
                && bowerProject.packages == old(bowerProject.packages)
                && bowerProject.order == old(bowerProject.order)
                && bowerProject.events == old(bowerProject.events)
                && events == old(events) + [ActiveDirChanged(bowerProject.rootPath, ""), ProjectLoading]
    {
      if bowerProject != null && bowerProject.activeDir == Some(fullPath) {
        var _ := SetActiveDir(bowerProject.rootPath);
      }
    }

    /** `checkProjectStatus`: the not-tracked packages and the other missing
        ones, each in key order, and status 1 exactly when either list is
        non-empty. The error objects built for a missing project or bower.json
        are discarded, so with a project the result never depends on them;
        without one, `_bowerProject.hasBowerJson()` throws a TypeError. */
    method CheckProjectStatus() returns (r: Result<ProjectStatus>)
      requires Valid()
      ensures r.Failure? <==> bowerProject == null
      ensures r.Failure? ==> r.error == TypeError
      ensures r.Success? ==>
                && r.value.untracked == Where(bowerProject.PackagesArray(), IsNotTracked)
                && r.value.missing == Where(bowerProject.PackagesArray(), IsMissingOnly)
                && (r.value.status == 1 <==> r.value.untracked != [] || r.value.missing != [])
                && (r.value.status == 0 <==> r.value.untracked == [] && r.value.missing == [])
                && |r.value.untracked| + |r.value.missing| <= |bowerProject.packages|
                && (forall p :: p in r.value.untracked ==> p !in r.value.missing)
                && (forall p :: p in r.value.untracked <==>
                      p.name in bowerProject.packages && bowerProject.packages[p.name] == p && p.notTracked)
                && (forall p :: p in r.value.missing <==>
                      p.name in bowerProject.packages && bowerProject.packages[p.name] == p && !p.notTracked && p.missing)
    {
      if bowerProject == null {
        return Failure(TypeError);
      }
      var packages := bowerProject.GetPackagesArray();
      var untracked, missing := SplitByStatus(packages);
      var status := 0;
      if |untracked| != 0 || |missing| != 0 {
        status := 1;
      }
      r := Success(ProjectStatus(status, untracked, missing));
    }

    /** `synchronizeWithBowerJson`, given how the prune and the install would
        end: the status is taken first (throwing when there is no project),
        prune always runs next, and install runs only after prune succeeded and
        only when some package is missing. A failed prune rejects the promise
        with its error; a failed install is not handled, so the promise is
        never settled. `calls` lists the external steps started, in order. */
    method SynchronizeWithBowerJson(prune: Outcome, install: Outcome) returns (c: Completion, calls: seq<ExternalCall>)
      requires Valid()
      ensures bowerProject == null ==> c == Threw(TypeError) && calls == []
      ensures bowerProject != null ==> |calls| >= 1 && calls[0] == Prune
      ensures InstallFromBowerJson in calls <==>
                bowerProject != null && prune == Pass &&
                Where(bowerProject.PackagesArray(), IsMissingOnly) != []
      ensures InstallFromBowerJson in calls ==> calls == [Prune, InstallFromBowerJson]
      ensures bowerProject != null && prune.Fail? ==> c == Rejected(prune.error) && calls == [Prune]
      ensures c == Resolved <==>
                bowerProject != null && prune == Pass && (InstallFromBowerJson in calls ==> install == Pass)
      ensures c == Pending <==> InstallFromBowerJson in calls && install.Fail?
    {
      var status := CheckProjectStatus();
      if status.Failure? {
        return Threw(status.error), [];
      }
      calls := [Prune];
      if prune.Fail? {
        return Rejected(prune.error), calls;
      }
      if |status.value.missing| != 0 {
        calls := calls + [InstallFromBowerJson];
        if install == Pass {
          c := Resolved;
        } else {
          c := Pending;
        }
      } else {
        c := Resolved;
      }
    }
  }
}
