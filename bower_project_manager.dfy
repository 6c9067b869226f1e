/** The older Bower project of src/bower/ProjectManager.js: the same name-keyed
    package table as the newer class, with a plainer `addPackages` that only
    signals, `updatePackageVersion` instead of `updatePackage`, and queries over
    the `isInstalled` and `extraneous` properties; plus the module's rule for
    choosing the active directory. Notifications the module triggers are
    recorded in `events`. */
module BowerProjectManager {

  import opened Outcomes
  import opened Packages
  import opened PackageTable
  import Paths

  class BowerProject {
    const name: string
    const rootPath: string
    var activeDir: Option<string>
    var shortActiveDir: Option<string>
    /** `_packages`: package name to package. */
    var packages: map<string, Pkg>
    /** The enumeration order of `_packages`' keys. */
    var order: seq<string>
    ghost var events: seq<Notification>

    ghost predicate Valid()
      reads this
    {
      TableOk(order, packages)
    }

    constructor (name: string, rootPath: string)
      ensures Valid()
      ensures this.name == name && this.rootPath == rootPath
      ensures activeDir == None && shortActiveDir == None
      ensures packages == map[] && order == [] && events == []
    {
      this.name := name;
      this.rootPath := rootPath;
      activeDir := None;
      shortActiveDir := None;
      packages := map[];
      order := [];
      events := [];
    }

    /** The `activeDir` setter: stores the directory and its path relative to the root. */
    method SetActiveDir(dir: string)
      modifies this
      ensures activeDir == Some(dir) && shortActiveDir == Some(Paths.ShortPath(dir, rootPath))
      ensures GetPath() == if dir != "" then dir else rootPath
      ensures packages == old(packages) && order == old(order) && events == old(events)
      ensures old(Valid()) ==> Valid()
    {
      activeDir := Some(dir);
      if dir == rootPath {
        shortActiveDir := Some("");
      } else {
        shortActiveDir := Some(Paths.Slice(dir, |rootPath|));
      }
    }

    /** `getPath()`: the active directory, or the root while none (or an empty one) is set. */
    function GetPath(): string
      reads this
    {
      Paths.EffectivePath(activeDir, rootPath)
    }

    /** `setPackages`: empties the table, then adds the packages. */
    method SetPackages(ps: seq<Pkg>)
      requires Valid()
      modifies this
      ensures Valid()
      ensures packages == Put(map[], ps) && order == Names(Installed(map[], ps))
      ensures packages.Keys == NameSet(ps)
      ensures forall i :: 0 <= i < |ps| && (forall j :: i < j < |ps| ==> ps[j].name != ps[i].name) ==>
                packages[ps[i].name] == ps[i]
      ensures events == old(events) + [DependenciesAddedSignal]
      ensures activeDir == old(activeDir) && shortActiveDir == old(shortActiveDir)
    {
      packages := map[];
      order := [];
      AddPackages(ps);
      PutKeys(map[], ps);
      forall i | 0 <= i < |ps| && (forall j :: i < j < |ps| ==> ps[j].name != ps[i].name)
        ensures packages[ps[i].name] == ps[i]
      {
        PutLastWins(map[], ps, i);
      }
    }

    /** `addPackages`: files each package under its name, in order, and signals
        that dependencies were added (without saying which). */
    method AddPackages(ps: seq<Pkg>)
      requires Valid()
      modifies this
      ensures Valid()
      ensures packages == Put(old(packages), ps)
      ensures packages.Keys == old(packages).Keys + NameSet(ps)
      ensures forall n :: n !in NameSet(ps) && n in old(packages) ==> packages[n] == old(packages)[n]
      ensures order == old(order) + Names(Installed(old(packages), ps))
      ensures events == old(events) + [DependenciesAddedSignal]
      ensures activeDir == old(activeDir) && shortActiveDir == old(shortActiveDir)
    {
      FileKeepsTable(order, packages, ps);
      PutKeys(packages, ps);
      forall n | n !in NameSet(ps) && n in packages ensures Put(packages, ps)[n] == packages[n] {
        PutElsewhere(packages, ps, n);
      }
      var installed, updated;
      packages, order, installed, updated := FilePackages(packages, order, ps);
      events := events + [DependenciesAddedSignal];
    }

    /** `removePackages`: deletes each requested name that is a key, ignores the
        others, and announces the packages it actually removed, in request order. */
    method RemovePackages(names: seq<string>)
      requires Valid()
      modifies this
      ensures Valid()
      ensures packages == old(packages) - Elems(names)
      ensures order == Keep(old(order), Elems(names))
      ensures events == old(events) + [DependenciesRemoved(Found(old(packages), names))]
      ensures activeDir == old(activeDir) && shortActiveDir == old(shortActiveDir)
    {
      DeleteKeepsTable(order, packages, Elems(names));
      var removed;
      packages, order, removed := RemoveNames(packages, order, names);
      events := events + [DependenciesRemoved(removed)];
    }

    /** `getPackageByName`: `None` stands for `undefined`. */
    function GetPackageByName(n: string): (r: Option<Pkg>)
      reads this
      requires Valid()
      ensures r.Some? <==> exists p :: p in PackagesArray() && p.name == n
      ensures r.Some? ==> r.value in PackagesArray() && r.value.name == n
    {
      ListingCoversTable(order, packages);
      if n in packages then Some(packages[n]) else None
    }

    /** `updatePackageVersion`: sets the version of the package filed under the
        name and announces it. When no package has that name, `pkg` is
        `undefined` and assigning its version throws a TypeError before anything
        changes. */
    method UpdatePackageVersion(n: string, version: string) returns (r: Outcome)
      requires Valid()
      modifies this
      ensures Valid()
      ensures r == Pass <==> n in old(packages)
      ensures r.Fail? ==> r.error == TypeError && unchanged(this)
      ensures r == Pass ==>
                && packages == old(packages)[n := old(packages)[n].(version := version)]
                && events == old(events) + [DependencyUpdated(packages[n])]
      ensures order == old(order) && packages.Keys == old(packages).Keys
      ensures activeDir == old(activeDir) && shortActiveDir == old(shortActiveDir)
    {
      var pkg := GetPackageByName(n);
      if pkg.None? {
        return Fail(TypeError);
      }
      var updated := pkg.value.(version := version);
      packages := packages[n := updated];
      events := events + [DependencyUpdated(updated)];
      r := Pass;
    }

    /** The table's packages in key order. */
    function PackagesArray(): seq<Pkg>
      reads this
      requires Valid()
    {
      Listing(order, packages)
    }

    /** `getPackagesArray`: collects the packages in key order. */
    method GetPackagesArray() returns (arr: seq<Pkg>)
      requires Valid()
      ensures arr == PackagesArray()
      ensures |arr| == |packages|
      ensures forall p :: p in arr <==> p.name in packages && packages[p.name] == p
    {
      arr := [];
      var i := 0;
      while i < |order|
        invariant 0 <= i <= |order|
        invariant arr == PackagesArray()[..i]
      {
        arr := arr + [packages[order[i]]];
        i := i + 1;
      }
      ListingCoversTable(order, packages);
    }

    /** `hasPackages`: the table has at least one key. */
    function HasPackages(): (r: bool)
      reads this
      requires Valid()
      ensures r <==> packages != map[]
    {
      OrderSize(order, packages.Keys);
      |order| != 0
    }

    /** `hasPackage`: a package of that name is filed and its `isInstalled` is set. */
    function HasPackage(n: string): (r: bool)
      reads this
      requires Valid()
      ensures r <==> exists p :: p in PackagesArray() && p.name == n && p.installed
    {
      ListingCoversTable(order, packages);
      n in packages && packages[n].installed
    }

    /** `hasUninstalledPackages` as written: `_.some` over the packages with the
        test `pkg.isInstalled`, so it reports whether some package IS installed. */
    function HasUninstalledPackages(): (r: bool)
      reads this
      requires Valid()
      ensures r <==> exists n :: n in packages && packages[n].installed
    {
      ListingCoversTable(order, packages);
      assert forall n :: n in packages ==> packages[n] in PackagesArray();
      Any(PackagesArray(), IsInstalled)
    }

    /** The check its documentation describes: some package is not installed,
        which is exactly `getUninstalledPackages()` being non-empty. */
    function HasUninstalledPackagesIntended(): (r: bool)
      reads this
      requires Valid()
      ensures r <==> GetUninstalledPackages() != []
    {
      AnyIffWhereNonEmpty(PackagesArray(), IsNotInstalled);
      Any(PackagesArray(), IsNotInstalled)
    }

    /** `hasExtraPackages`: some package has its `extraneous` property set,
        which is exactly `getExtraneousPackages()` being non-empty. */
    function HasExtraPackages(): (r: bool)
      reads this
      requires Valid()
      ensures r <==> GetExtraneousPackages() != []
    {
      AnyIffWhereNonEmpty(PackagesArray(), IsExtraneous);
      Any(PackagesArray(), IsExtraneous)
    }

    /** `getUninstalledPackages`: the packages that are not installed, in key order. */
    function GetUninstalledPackages(): (r: seq<Pkg>)
      reads this
      requires Valid()
      ensures forall p :: p in r <==> p.name in packages && packages[p.name] == p && !p.installed
    {
      ListingCoversTable(order, packages);
      Where(PackagesArray(), IsNotInstalled)
    }

    /** `getExtraneousPackages`: the packages whose `extraneous` property is set, in key order. */
    function GetExtraneousPackages(): (r: seq<Pkg>)
      reads this
      requires Valid()
      ensures forall p :: p in r <==> p.name in packages && packages[p.name] == p && p.extraneous
    {
      ListingCoversTable(order, packages);
      Where(PackagesArray(), IsExtraneous)
    }

    /** Whenever every package is installed and there is at least one, the check
        as written reports uninstalled packages although there are none. */
    lemma AllInstalledIsMisreported()
      requires Valid()
      requires packages != map[]
      requires forall n :: n in packages ==> packages[n].installed
      ensures HasUninstalledPackages()
      ensures GetUninstalledPackages() == []
      ensures !HasUninstalledPackagesIntended()
    {
      var n :| n in packages;
      assert packages[n].installed;
      var listing := PackagesArray();
      ListingCoversTable(order, packages);
      AnyIffWhereNonEmpty(listing, IsNotInstalled);
      assert forall i :: 0 <= i < |listing| ==> listing[i] in listing;
    }

    /** Whenever no package is installed and there is at least one, the check
        as written reports none although every package is uninstalled. */
    lemma NoneInstalledIsMisreported()
      requires Valid()
      requires packages != map[]
      requires forall n :: n in packages ==> !packages[n].installed
      ensures !HasUninstalledPackages()
      ensures HasUninstalledPackagesIntended()
    {
      var n :| n in packages;
      assert packages[n] in GetUninstalledPackages();
    }
  }

  /** The single-package table that shows the discrepancy: `jquery`, installed. */
  lemma InstalledJqueryIsMisreported(project: BowerProject)
    requires project.order == ["jquery"]
    requires project.packages == map["jquery" := Pkg("jquery", "2.1.1", true, false, false, false)]
    ensures project.Valid()
    ensures project.HasUninstalledPackages() && project.GetUninstalledPackages() == []
  {
    assert "jquery" in project.packages;
    project.AllInstalledIsMisreported();
  }

  /** The module-level state of src/bower/ProjectManager.js: the current
      project (null when no project is open) and the notifications it triggers. */
  class Manager {
    var bowerProject: BowerProject?
    ghost var events: seq<Notification>

    constructor (bowerProject: BowerProject?)
      ensures this.bowerProject == bowerProject && events == []
    {
      this.bowerProject := bowerProject;
      events := [];
    }

    /** `_setActiveDir`: a path inside a `node_modules` or `bower_components`
        folder is ignored; any other path becomes the project's active
        directory and is announced with its short form. With no project the
        assignment throws a TypeError. */
    method SetActiveDir(path: string) returns (r: Outcome)
      modifies this, bowerProject
      ensures bowerProject == old(bowerProject)
      ensures Paths.IsExcluded(path) ==> r == Pass && events == old(events)
      ensures Paths.IsExcluded(path) && bowerProject != null ==> unchanged(bowerProject)
      ensures !Paths.IsExcluded(path) && bowerProject == null ==> r == Fail(TypeError) && events == old(events)
      ensures !Paths.IsExcluded(path) && bowerProject != null ==>
                && r == Pass
                && bowerProject.activeDir == Some(path)
                && bowerProject.shortActiveDir == Some(Paths.ShortPath(path, bowerProject.rootPath))
                && bowerProject.packages == old(bowerProject.packages)
                && bowerProject.order == old(bowerProject.order)
                && bowerProject.events == old(bowerProject.events)
                && events == old(events) + [ActiveDirChanged(path, Paths.ShortPath(path, bowerProject.rootPath)), ProjectLoading]
      ensures bowerProject != null && old(bowerProject.Valid()) ==> bowerProject.Valid()
    {
      if Paths.IsExcluded(path) {
        return Pass;
      }
      if bowerProject == null {
        return Fail(TypeError);
      }
      bowerProject.SetActiveDir(path);
      events := events + [ActiveDirChanged(path, bowerProject.shortActiveDir.value)];
      ConfigureBowerProject();
      r := Pass;
    }

    /** `_configureBowerProject`, up to its first asynchronous call: it announces
        that the project is loading; the reload that follows is not modelled. */
    method ConfigureBowerProject()
      modifies this
      ensures events == old(events) + [ProjectLoading]
      ensures bowerProject == old(bowerProject)
    {
      events := events + [ProjectLoading];
    }
  }
}
