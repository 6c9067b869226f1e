/** The packages a Bower project holds, and the filters its queries run over them.
    The status tests `isInstalled`, `isMissing`, `isNotTracked` and the
    `extraneous` property belong to a Package module outside this model; here
    each is a plain field whose value the model does not constrain. */
module Packages {

  datatype Pkg = Pkg(
    name: string,
    version: string,
    installed: bool,   // isInstalled
    missing: bool,     // isMissing
    notTracked: bool,  // isNotTracked
    extraneous: bool)  // extraneous

  /** What a project announces to its listeners; recorded, never acted upon. */
  datatype Notification =
    | DependenciesAdded(installed: seq<Pkg>, updated: seq<Pkg>)
    | DependenciesAddedSignal
    | DependenciesRemoved(removed: seq<Pkg>)
    | DependencyUpdated(pkg: Pkg)
    | ActiveDirChanged(path: string, shortPath: string)
    | ProjectLoading

  predicate IsInstalled(p: Pkg) { p.installed }
  predicate IsNotInstalled(p: Pkg) { !p.installed }
  predicate IsMissing(p: Pkg) { p.missing }
  predicate IsNotTracked(p: Pkg) { p.notTracked }
  predicate IsExtraneous(p: Pkg) { p.extraneous }

  predicate NoDup<T(==)>(s: seq<T>)
  {
    forall i, j :: 0 <= i < j < |s| ==> s[i] != s[j]
  }

  function Names(ps: seq<Pkg>): seq<string>
  {
    seq(|ps|, i requires 0 <= i < |ps| => ps[i].name)
  }

  /** The elements of a sequence of names, as a set. */
  function Elems(s: seq<string>): set<string>
  {
    set x | x in s
  }

  function NameSet(ps: seq<Pkg>): set<string>
  {
    set p | p in ps :: p.name
  }

  /** lodash `_.filter`: the elements that pass `keep`, in their order. */
  function Where(ps: seq<Pkg>, keep: Pkg -> bool): (r: seq<Pkg>)
    ensures |r| <= |ps|
    ensures forall p :: p in r <==> p in ps && keep(p)
    decreases |ps|
  {
    if ps == [] then []
    else
      var init, p := ps[..|ps| - 1], ps[|ps| - 1];
      assert ps == init + [p];
      Where(init, keep) + (if keep(p) then [p] else [])
  }

  /** lodash `_.some`: scans from the front and stops at the first element that
      passes `test`. */
  function Any(ps: seq<Pkg>, test: Pkg -> bool): (r: bool)
    ensures r <==> exists i :: 0 <= i < |ps| && test(ps[i])
    decreases |ps|
  {
    if ps == [] then false
    else if test(ps[0]) then true
    else
      var r := Any(ps[1..], test);
      assert forall i :: 1 <= i < |ps| ==> ps[i] == ps[1..][i - 1];
      r
  }

  /** `_.some(test)` agrees with `_.filter(test)` being non-empty. */
  lemma AnyIffWhereNonEmpty(ps: seq<Pkg>, test: Pkg -> bool)
    ensures Any(ps, test) <==> Where(ps, test) != []
  {
    if Where(ps, test) != [] {
      assert Where(ps, test)[0] in Where(ps, test);
    }
  }

  /** Two filters whose tests never both hold select, together, at most as many
      elements as the input has. */
  lemma {:induction false} DisjointFiltersBounded(ps: seq<Pkg>, f: Pkg -> bool, g: Pkg -> bool)
    requires forall p :: !(f(p) && g(p))
    ensures |Where(ps, f)| + |Where(ps, g)| <= |ps|
    decreases |ps|
  {
    if ps != [] {
      DisjointFiltersBounded(ps[..|ps| - 1], f, g);
    }
  }
}
