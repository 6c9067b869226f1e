/** The Bower project of src/bower/project/Project.js: one project root, the
    directory currently active inside it, and the name-keyed table of the
    project's packages with the mutators and queries the rest of the extension
    uses. Notifications sent to the package manager are recorded in `events`. */
module Project {

  import opened Outcomes
  import opened Packages
  import opened PackageTable
  import Paths

  class BowerProject {
    const name: string
    const rootPath: string
    var activeDir: Option<string>
    var shortActiveDir: Option<string>
    /** `_packages`: package name to package. */
    var packages: map<string, Pkg>
    /** The enumeration order of `_packages`' keys. */
    var order: seq<string>
    ghost var events: seq<Notification>

    ghost predicate Valid()
      reads this
    {
      TableOk(order, packages)
    }

    constructor (name: string, rootPath: string)
      ensures Valid()
      ensures this.name == name && this.rootPath == rootPath
      ensures activeDir == None && shortActiveDir == None
      ensures packages == map[] && order == [] && events == []
    {
      this.name := name;
      this.rootPath := rootPath;
      activeDir := None;
      shortActiveDir := None;
      packages := map[];
      order := [];
      events := [];
    }

    /** The `activeDir` setter: stores the directory and its path relative to the root. */
    method SetActiveDir(dir: string)
      modifies this
      ensures activeDir == Some(dir) && shortActiveDir == Some(Paths.ShortPath(dir, rootPath))
      ensures GetPath() == if dir != "" then dir else rootPath
      ensures packages == old(packages) && order == old(order) && events == old(events)
      ensures old(Valid()) ==> Valid()
    {
      activeDir := Some(dir);
      if dir == rootPath {
        shortActiveDir := Some("");
      } else {
        shortActiveDir := Some(Paths.Slice(dir, |rootPath|));
      }
    }

    /** `getPath()`: the active directory, or the root while none (or an empty one) is set. */
    function GetPath(): string
      reads this
    {
      Paths.EffectivePath(activeDir, rootPath)
    }

    /** `setPackages`: empties the table, then adds the packages. */
    method SetPackages(ps: seq<Pkg>)
      requires Valid()
      modifies this
      ensures Valid()
      ensures packages == Put(map[], ps) && order == Names(Installed(map[], ps))
      ensures packages.Keys == NameSet(ps)
      ensures forall i :: 0 <= i < |ps| && (forall j :: i < j < |ps| ==> ps[j].name != ps[i].name) ==>
                packages[ps[i].name] == ps[i]
      ensures events == old(events) + [DependenciesAdded(Installed(map[], ps), Updated(map[], ps))]
      ensures activeDir == old(activeDir) && shortActiveDir == old(shortActiveDir)
    {
      packages := map[];
      order := [];
      var installed, updated := AddPackages(ps);
      PutKeys(map[], ps);
      forall i | 0 <= i < |ps| && (forall j :: i < j < |ps| ==> ps[j].name != ps[i].name)
        ensures packages[ps[i].name] == ps[i]
      {
        PutLastWins(map[], ps, i);
      }
    }

    /** `addPackages`: files each package under its name, in order, sorting it
        into `installed` when its name was not yet a key and into `updated`
        when it was; both lists are announced and returned. */
    method AddPackages(ps: seq<Pkg>) returns (installed: seq<Pkg>, updated: seq<Pkg>)
      requires Valid()
      modifies this
      ensures Valid()
      ensures installed == Installed(old(packages), ps) && updated == Updated(old(packages), ps)
      ensures packages == Put(old(packages), ps)
      ensures order == old(order) + Names(installed)
      ensures events == old(events) + [DependenciesAdded(installed, updated)]
      ensures activeDir == old(activeDir) && shortActiveDir == old(shortActiveDir)
    {
      FileKeepsTable(order, packages, ps);
      packages, order, installed, updated := FilePackages(packages, order, ps);
      events := events + [DependenciesAdded(installed, updated)];
    }

    /** `removePackages`: deletes each requested name that is a key, ignores the
        others, and announces the packages it actually removed, in request order. */
    method RemovePackages(names: seq<string>)
      requires Valid()
      modifies this
      ensures Valid()
      ensures packages == old(packages) - Elems(names)
      ensures order == Keep(old(order), Elems(names))
      ensures events == old(events) + [DependenciesRemoved(Found(old(packages), names))]
      ensures activeDir == old(activeDir) && shortActiveDir == old(shortActiveDir)
    {
      DeleteKeepsTable(order, packages, Elems(names));
      var removed;
      packages, order, removed := RemoveNames(packages, order, names);
      events := events + [DependenciesRemoved(removed)];
    }

    /** `updatePackage`: files the package under its name and announces it;
        every other entry stays as it was. */
    method UpdatePackage(p: Pkg)
      requires Valid()
      modifies this
      ensures Valid()
      ensures packages == old(packages)[p.name := p]
      ensures order == if p.name in old(packages) then old(order) else old(order) + [p.name]
      ensures p.name in old(packages) ==> |packages| == |old(packages)|
      ensures events == old(events) + [DependencyUpdated(p)]
      ensures activeDir == old(activeDir) && shortActiveDir == old(shortActiveDir)
    {
      if p.name !in packages {
        order := order + [p.name];
      }
      packages := packages[p.name := p];
      events := events + [DependencyUpdated(p)];
    }

    /** `getPackageByName`: `None` stands for `undefined`. */
    function GetPackageByName(n: string): (r: Option<Pkg>)
      reads this
      requires Valid()
      ensures r.Some? <==> exists p :: p in PackagesArray() && p.name == n
      ensures r.Some? ==> r.value in PackagesArray() && r.value.name == n
    {
      ListingCoversTable(order, packages);
      if n in packages then Some(packages[n]) else None
    }

    /** The table's packages in key order. */
    function PackagesArray(): seq<Pkg>
      reads this
      requires Valid()
    {
      Listing(order, packages)
    }

    /** `getPackagesArray`: collects the packages in key order. */
    method GetPackagesArray() returns (arr: seq<Pkg>)
      requires Valid()
      ensures arr == PackagesArray()
      ensures |arr| == |packages|
      ensures forall p :: p in arr <==> p.name in packages && packages[p.name] == p
    {
      arr := [];
      var i := 0;
      while i < |order|
        invariant 0 <= i <= |order|
        invariant arr == PackagesArray()[..i]
      {
        arr := arr + [packages[order[i]]];
        i := i + 1;
      }
      ListingCoversTable(order, packages);
    }

    /** `hasPackages`: the table has at least one key. */
    function HasPackages(): (r: bool)
      reads this
      requires Valid()
      ensures r <==> packages != map[]
    {
      OrderSize(order, packages.Keys);
      |order| != 0
    }

    /** `hasPackage`: a package of that name is listed and installed. */
    function HasPackage(n: string): (r: bool)
      reads this
      requires Valid()
      ensures r <==> exists p :: p in PackagesArray() && p.name == n && p.installed
    {
      ListingCoversTable(order, packages);
      n in packages && packages[n].installed
    }

    /** `hasUninstalledPackages`: some package is missing. */
    function HasUninstalledPackages(): (r: bool)
      reads this
      requires Valid()
      ensures r <==> GetUninstalledPackages() != []
    {
      AnyIffWhereNonEmpty(PackagesArray(), IsMissing);
      Any(PackagesArray(), IsMissing)
    }

    /** `hasExtraPackages`: some package is not tracked. */
    function HasExtraPackages(): (r: bool)
      reads this
      requires Valid()
      ensures r <==> exists n :: n in packages && packages[n].notTracked
    {
      ListingCoversTable(order, packages);
      assert forall n :: n in packages ==> packages[n] in PackagesArray();
      Any(PackagesArray(), IsNotTracked)
    }

    /** `getUninstalledPackages`: the missing packages, in key order. */
    function GetUninstalledPackages(): (r: seq<Pkg>)
      reads this
      requires Valid()
      ensures forall p :: p in r <==> p.name in packages && packages[p.name] == p && p.missing
    {
      ListingCoversTable(order, packages);
      Where(PackagesArray(), IsMissing)
    }

    /** `getExtraneousPackages`: the packages whose `extraneous` property is set, in key order. */
    function GetExtraneousPackages(): (r: seq<Pkg>)
      reads this
      requires Valid()
      ensures forall p :: p in r <==> p.name in packages && packages[p.name] == p && p.extraneous
    {
      ListingCoversTable(order, packages);
      Where(PackagesArray(), IsExtraneous)
    }

    /** `notifyBowerJsonChanged`, given the outcome of listing the project's
        dependencies afresh: a failed listing changes nothing (there is no fail
        handler); otherwise the table is replaced exactly when `ReactionTo`
        says so. */
    method NotifyBowerJsonChanged(listing: Result<seq<Pkg>>, isEqualTo: (Pkg, Pkg) -> bool)
      requires Valid()
      modifies this
      ensures Valid()
      ensures listing.Success? && ReactionTo(|old(packages)|, old(packages), listing.value, isEqualTo) == Replace ==>
                && packages == Put(map[], listing.value)
                && order == Names(Installed(map[], listing.value))
                && events == old(events) + [DependenciesAdded(Installed(map[], listing.value), Updated(map[], listing.value))]
      ensures listing.Failure? || ReactionTo(|old(packages)|, old(packages), listing.value, isEqualTo) != Replace ==>
                unchanged(this)
      ensures activeDir == old(activeDir) && shortActiveDir == old(shortActiveDir)
    {
      var currentPackages := GetPackagesArray();
      if listing.Success? {
        var packagesArray := listing.value;
        if |currentPackages| != |packagesArray| {
          SetPackages(packagesArray);
        } else {
          var isAnyModification := ScanForModification(packages, packagesArray, isEqualTo);
          if isAnyModification == Some(true) {
            SetPackages(packagesArray);
          }
          // None: `getPackageByName` gave `undefined` and the callback threw; nothing is replaced.
        }
      }
    }
  }

  // ---------------------------------------------------------------------------
  // Deciding whether a new listing differs from the table

  /** What `notifyBowerJsonChanged` does with a new listing: replace the
      table, keep it, or stop on the TypeError its callback throws. */
  datatype Reaction = Replace | KeepTable | Abort

  /** The listed package has a counterpart of the same name that `isEqualTo` accepts. */
  predicate Matches(m: map<string, Pkg>, p: Pkg, isEqualTo: (Pkg, Pkg) -> bool)
  {
    p.name in m && isEqualTo(m[p.name], p)
  }

  /** The `_.some` scan over the new listing: `Some(true)` at the first
      package its counterpart is not equal to, `None` at the first package
      without a counterpart (`undefined.isEqualTo` throws), `Some(false)` when
      every package matches. */
  function ScanForModification(m: map<string, Pkg>, listed: seq<Pkg>, isEqualTo: (Pkg, Pkg) -> bool): (r: Option<bool>)
    ensures r == Some(true) ==>
              exists i :: 0 <= i < |listed| && listed[i].name in m && !isEqualTo(m[listed[i].name], listed[i])
    ensures r == None ==> exists i :: 0 <= i < |listed| && listed[i].name !in m
    decreases |listed|
  {
    if listed == [] then Some(false)
    else if listed[0].name !in m then None
    else if !isEqualTo(m[listed[0].name], listed[0]) then Some(true)
    else
      var r := ScanForModification(m, listed[1..], isEqualTo);
      assert forall i :: 1 <= i < |listed| ==> listed[i] == listed[1..][i - 1];
      r
  }

  /** The decision, given the number of packages in the table before the listing. */
  function ReactionTo(currentCount: nat, m: map<string, Pkg>, listed: seq<Pkg>, isEqualTo: (Pkg, Pkg) -> bool): (r: Reaction)
    ensures r == Replace ==>
              currentCount != |listed| || exists i :: 0 <= i < |listed| && !Matches(m, listed[i], isEqualTo)
    ensures r != Replace ==> currentCount == |listed|
  {
    if currentCount != |listed| then Replace
    else
      match ScanForModification(m, listed, isEqualTo)
      case None => Abort
      case Some(modified) => if modified then Replace else KeepTable
  }

  /** The scan finds no modification exactly when every listed package matches. */
  lemma {:induction false} ScanFindsNothingIffAllMatch(m: map<string, Pkg>, listed: seq<Pkg>, isEqualTo: (Pkg, Pkg) -> bool)
    ensures ScanForModification(m, listed, isEqualTo) == Some(false) <==>
              forall i :: 0 <= i < |listed| ==> Matches(m, listed[i], isEqualTo)
    decreases |listed|
  {
    if listed != [] {
      ScanFindsNothingIffAllMatch(m, listed[1..], isEqualTo);
      assert forall i :: 1 <= i < |listed| ==> listed[i] == listed[1..][i - 1];
    }
  }

  /** The scan throws exactly when it reaches a package without a counterpart
      before any that differs. */
  lemma {:induction false} ScanThrowsIffAbsentFirst(m: map<string, Pkg>, listed: seq<Pkg>, isEqualTo: (Pkg, Pkg) -> bool)
    ensures ScanForModification(m, listed, isEqualTo) == None <==>
              exists i :: 0 <= i < |listed| && listed[i].name !in m &&
                forall j :: 0 <= j < i ==> Matches(m, listed[j], isEqualTo)
    decreases |listed|
  {
    if listed != [] {
      var rest := listed[1..];
      ScanFindsNothingIffAllMatch(m, listed, isEqualTo);
      ScanThrowsIffAbsentFirst(m, rest, isEqualTo);
      if listed[0].name in m && isEqualTo(m[listed[0].name], listed[0]) {
        if ScanForModification(m, rest, isEqualTo) == None {
          var i :| 0 <= i < |rest| && rest[i].name !in m &&
                   forall j :: 0 <= j < i ==> Matches(m, rest[j], isEqualTo);
          assert listed[i + 1] == rest[i];
          assert forall j :: 1 <= j < i + 1 ==> listed[j] == rest[j - 1];
        }
        if exists i :: 0 <= i < |listed| && listed[i].name !in m &&
                       forall j :: 0 <= j < i ==> Matches(m, listed[j], isEqualTo) {
          var i :| 0 <= i < |listed| && listed[i].name !in m &&
                   forall j :: 0 <= j < i ==> Matches(m, listed[j], isEqualTo);
          assert i >= 1;
          assert rest[i - 1] == listed[i];
          assert forall j :: 0 <= j < i - 1 ==> rest[j] == listed[j + 1];
        }
      } else if listed[0].name in m {
        assert !Matches(m, listed[0], isEqualTo);
      }
    }
  }

  /** The table is kept exactly when the counts agree and every listed package
      matches its counterpart; the rest is replaced, unless the scan throws. */
  lemma ReactionKeepsIffAllMatch(currentCount: nat, m: map<string, Pkg>, listed: seq<Pkg>, isEqualTo: (Pkg, Pkg) -> bool)
    ensures ReactionTo(currentCount, m, listed, isEqualTo) == KeepTable <==>
              currentCount == |listed| && forall i :: 0 <= i < |listed| ==> Matches(m, listed[i], isEqualTo)
    ensures ReactionTo(currentCount, m, listed, isEqualTo) == Abort <==>
              currentCount == |listed| &&
              exists i :: 0 <= i < |listed| && listed[i].name !in m &&
                forall j :: 0 <= j < i ==> Matches(m, listed[j], isEqualTo)
  {
    ScanFindsNothingIffAllMatch(m, listed, isEqualTo);
    ScanThrowsIffAbsentFirst(m, listed, isEqualTo);
  }

  // ---------------------------------------------------------------------------
  // The decision as evidently intended

  /** A new listing differs from the table when the counts differ or some
      listed package has no counterpart or an unequal one. */
  predicate ListingDiffers(m: map<string, Pkg>, listed: seq<Pkg>, isEqualTo: (Pkg, Pkg) -> bool)
  {
    |m| != |listed| || exists i :: 0 <= i < |listed| && !Matches(m, listed[i], isEqualTo)
  }

  /** The decision that replaces the table whenever the listing differs. */
  function IntendedReaction(m: map<string, Pkg>, listed: seq<Pkg>, isEqualTo: (Pkg, Pkg) -> bool): (r: Reaction)
    ensures r != Abort
    ensures r == KeepTable && NoDup(Names(listed)) ==> NameSet(listed) == m.Keys
  {
    if ListingDiffers(m, listed, isEqualTo) then Replace
    else
      SameNamesWhenAllMatch(m, listed, isEqualTo);
      KeepTable
  }

  lemma SameNamesWhenAllMatch(m: map<string, Pkg>, listed: seq<Pkg>, isEqualTo: (Pkg, Pkg) -> bool)
    requires !ListingDiffers(m, listed, isEqualTo)
    ensures NoDup(Names(listed)) ==> NameSet(listed) == m.Keys
  {
    if NoDup(Names(listed)) {
      assert NameSet(listed) <= m.Keys by {
        forall n | n in NameSet(listed) ensures n in m {
          var p :| p in listed && p.name == n;
          var i :| 0 <= i < |listed| && listed[i] == p;
          assert Matches(m, listed[i], isEqualTo);
        }
      }
      var names := Names(listed);
      forall n ensures n in NameSet(listed) <==> n in names {
        if n in names {
          var i :| 0 <= i < |names| && names[i] == n;
          assert listed[i] in listed;
        }
        if n in NameSet(listed) {
          var p :| p in listed && p.name == n;
          var i :| 0 <= i < |listed| && listed[i] == p;
          assert names[i] == n;
        }
      }
      OrderSize(names, NameSet(listed));
      assert |NameSet(listed)| == |m.Keys|;
      SubsetOfEqualSize(NameSet(listed), m.Keys);
    }
  }

  lemma SubsetOfEqualSize(a: set<string>, b: set<string>)
    requires a <= b && |a| == |b|
    ensures a == b
  {
    assert |b - a| == 0;
  }

  /** Whenever the source's scan does not throw, it decides as intended. */
  lemma ReactionAgreesUnlessAborted(m: map<string, Pkg>, listed: seq<Pkg>, isEqualTo: (Pkg, Pkg) -> bool)
    requires ReactionTo(|m|, m, listed, isEqualTo) != Abort
    ensures ReactionTo(|m|, m, listed, isEqualTo) == IntendedReaction(m, listed, isEqualTo)
  {
    ReactionKeepsIffAllMatch(|m|, m, listed, isEqualTo);
  }

  /** A listing of the same size that renames a package is dropped: the table
      holds `jquery`, the listing holds `lodash`; the scan throws instead of
      replacing the table. */
  lemma RenamedListingIsDropped(isEqualTo: (Pkg, Pkg) -> bool)
    ensures var jquery := Pkg("jquery", "2.1.1", true, false, false, false);
            var lodash := Pkg("lodash", "2.4.1", true, false, false, false);
            ReactionTo(1, map["jquery" := jquery], [lodash], isEqualTo) == Abort &&
            IntendedReaction(map["jquery" := jquery], [lodash], isEqualTo) == Replace
  {
    var jquery := Pkg("jquery", "2.1.1", true, false, false, false);
    var lodash := Pkg("lodash", "2.4.1", true, false, false, false);
    assert "lodash" != "jquery";
    assert !Matches(map["jquery" := jquery], [lodash][0], isEqualTo);
  }
}
