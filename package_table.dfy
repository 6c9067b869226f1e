/** The package table both versions of the Bower project keep: a JavaScript
    object used as a dictionary from package name to package. Its abstract value
    is a map together with the order of its keys (JavaScript enumerates an
    object's keys in insertion order; overwriting a key keeps its place, deleting
    it removes it). The functions here state what the table's mutators produce;
    the classes in Project and BowerProjectManager are proved against them. */
module PackageTable {

  import opened Packages

  /** Every package is filed under its own name, as `_packages[pkg.name] = pkg` does. */
  predicate KeysMatch(m: map<string, Pkg>)
  {
    forall n :: n in m ==> m[n].name == n
  }

  /** The key order lists each key of the table exactly once, and every package
      is filed under its own name. */
  ghost predicate TableOk(order: seq<string>, m: map<string, Pkg>)
  {
    NoDup(order) && (forall n :: n in m <==> n in order) && KeysMatch(m)
  }

  /** The table after `_packages[pkg.name] = pkg` for each package of `ps`, in order. */
  function Put(m: map<string, Pkg>, ps: seq<Pkg>): map<string, Pkg>
    decreases |ps|
  {
    if ps == [] then m
    else
      var p := ps[|ps| - 1];
      Put(m, ps[..|ps| - 1])[p.name := p]
  }

  /** The incoming packages whose name was not yet a key when they arrived:
      neither a key of the table before nor the name of an earlier incoming one. */
  function Installed(m: map<string, Pkg>, ps: seq<Pkg>): seq<Pkg>
    decreases |ps|
  {
    if ps == [] then []
    else
      var init, p := ps[..|ps| - 1], ps[|ps| - 1];
      Installed(m, init) + (if p.name in m || p.name in NameSet(init) then [] else [p])
  }

  /** The incoming packages whose name was already a key when they arrived. */
  function Updated(m: map<string, Pkg>, ps: seq<Pkg>): seq<Pkg>
    decreases |ps|
  {
    if ps == [] then []
    else
      var init, p := ps[..|ps| - 1], ps[|ps| - 1];
      Updated(m, init) + (if p.name in m || p.name in NameSet(init) then [p] else [])
  }

  /** `c` is `a` and `b` merged: every element of `c` comes from exactly one of
      them, and each keeps its relative order. */
  predicate Interleaving<T(==)>(a: seq<T>, b: seq<T>, c: seq<T>)
    decreases |c|
  {
    if c == [] then a == [] && b == []
    else
      (a != [] && a[|a| - 1] == c[|c| - 1] && Interleaving(a[..|a| - 1], b, c[..|c| - 1]))
      || (b != [] && b[|b| - 1] == c[|c| - 1] && Interleaving(a, b[..|b| - 1], c[..|c| - 1]))
  }

  /** The packages found by removing the names `ns` one after another: the
      package under each name that is a key and was not requested earlier. */
  function Found(m: map<string, Pkg>, ns: seq<string>): seq<Pkg>
    decreases |ns|
  {
    if ns == [] then []
    else
      var init, n := ns[..|ns| - 1], ns[|ns| - 1];
      Found(m, init) + (if n in m && n !in init then [m[n]] else [])
  }

  /** The key order after deleting the keys in `gone`. */
  function Keep(order: seq<string>, gone: set<string>): seq<string>
    decreases |order|
  {
    if order == [] then []
    else
      var init, n := order[..|order| - 1], order[|order| - 1];
      Keep(init, gone) + (if n in gone then [] else [n])
  }

  /** The table's packages in key order: what `getPackagesArray` collects. */
  function Listing(order: seq<string>, m: map<string, Pkg>): seq<Pkg>
    requires forall n :: n in order ==> n in m
  {
    seq(|order|, i requires 0 <= i < |order| => m[order[i]])
  }

  // ---------------------------------------------------------------------------
  // Inserting packages

  /** After the inserts, the keys are the old keys and the incoming names. */
  lemma {:induction false} PutKeys(m: map<string, Pkg>, ps: seq<Pkg>)
    ensures Put(m, ps).Keys == m.Keys + NameSet(ps)
    decreases |ps|
  {
    if ps != [] {
      var init, p := ps[..|ps| - 1], ps[|ps| - 1];
      PutKeys(m, init);
      assert ps == init + [p];
      assert NameSet(ps) == NameSet(init) + {p.name};
    }
  }

  /** The last incoming package with a given name is the one left in the table. */
  lemma {:induction false} PutLastWins(m: map<string, Pkg>, ps: seq<Pkg>, i: nat)
    requires i < |ps|
    requires forall j :: i < j < |ps| ==> ps[j].name != ps[i].name
    ensures ps[i].name in Put(m, ps) && Put(m, ps)[ps[i].name] == ps[i]
    decreases |ps|
  {
    if i < |ps| - 1 {
      PutLastWins(m, ps[..|ps| - 1], i);
    }
  }

  /** A name no incoming package carries keeps its entry, or its absence. */
  lemma {:induction false} PutElsewhere(m: map<string, Pkg>, ps: seq<Pkg>, n: string)
    requires n !in NameSet(ps)
    ensures n in Put(m, ps) <==> n in m
    ensures n in m ==> Put(m, ps)[n] == m[n]
    decreases |ps|
  {
    if ps != [] {
      var init := ps[..|ps| - 1];
      assert NameSet(init) <= NameSet(ps);
      assert ps[|ps| - 1] in ps;
      PutElsewhere(m, init, n);
    }
  }

  /** Inserting keeps every package filed under its own name. */
  lemma {:induction false} PutKeysMatch(m: map<string, Pkg>, ps: seq<Pkg>)
    requires KeysMatch(m)
    ensures KeysMatch(Put(m, ps))
    decreases |ps|
  {
    if ps != [] {
      PutKeysMatch(m, ps[..|ps| - 1]);
    }
  }

  /** One step of inserting packages in order: the next package is classified
      by whether its name is already a key of the table built so far. */
  lemma ClassifyStep(m: map<string, Pkg>, ps: seq<Pkg>, i: nat)
    requires i < |ps|
    ensures Put(m, ps[..i + 1]) == Put(m, ps[..i])[ps[i].name := ps[i]]
    ensures ps[i].name in Put(m, ps[..i]) ==>
              Installed(m, ps[..i + 1]) == Installed(m, ps[..i]) &&
              Updated(m, ps[..i + 1]) == Updated(m, ps[..i]) + [ps[i]]
    ensures ps[i].name !in Put(m, ps[..i]) ==>
              Installed(m, ps[..i + 1]) == Installed(m, ps[..i]) + [ps[i]] &&
              Updated(m, ps[..i + 1]) == Updated(m, ps[..i])
  {
    assert ps[..i + 1][..i] == ps[..i];
    PutKeys(m, ps[..i]);
  }

  /** The `forEach` loop of `addPackages` on the table's value: files each
      package under its name, in order, sorting it into `installed` when its
      name was not yet a key and into `updated` when it was. A new key is
      appended to the key order; an overwritten one keeps its place. */
  method FilePackages(m0: map<string, Pkg>, o0: seq<string>, ps: seq<Pkg>)
    returns (m: map<string, Pkg>, o: seq<string>, installed: seq<Pkg>, updated: seq<Pkg>)
    ensures installed == Installed(m0, ps) && updated == Updated(m0, ps)
    ensures m == Put(m0, ps)
    ensures o == o0 + Names(installed)
  {
    m, o, installed, updated := m0, o0, [], [];
    var i := 0;
    while i < |ps|
      invariant 0 <= i <= |ps|
      invariant installed == Installed(m0, ps[..i]) && updated == Updated(m0, ps[..i])
      invariant m == Put(m0, ps[..i])
      invariant o == o0 + Names(installed)
    {
      var p := ps[i];
      ClassifyStep(m0, ps, i);
      if p.name in m {
        updated := updated + [p];
      } else {
        assert Names(installed + [p]) == Names(installed) + [p.name];
        installed := installed + [p];
        o := o + [p.name];
      }
      m := m[p.name := p];
      i := i + 1;
    }
    assert ps[..|ps|] == ps;
  }

  /** Filing packages keeps the key order a repeat-free list of exactly the
      keys, with every package under its own name. */
  lemma FileKeepsTable(o0: seq<string>, m0: map<string, Pkg>, ps: seq<Pkg>)
    requires TableOk(o0, m0)
    ensures TableOk(o0 + Names(Installed(m0, ps)), Put(m0, ps))
  {
    var a := Installed(m0, ps);
    var o := o0 + Names(a);
    PutKeys(m0, ps);
    PutKeysMatch(m0, ps);
    InstalledNames(m0, ps);
    forall k | 0 <= k < |a| ensures Names(a)[k] in NameSet(a) {
      assert a[k] in a;
    }
    forall n | n in NameSet(a) ensures n in Names(a) {
      var p :| p in a && p.name == n;
      var k :| 0 <= k < |a| && a[k] == p;
      assert Names(a)[k] == n;
    }
    forall i, j | 0 <= i < j < |o| ensures o[i] != o[j] {
      if j >= |o0| && i < |o0| {
        assert o[j] == Names(a)[j - |o0|];
      } else if i >= |o0| {
        assert o[i] == Names(a)[i - |o0|] && o[j] == Names(a)[j - |o0|];
      }
    }
  }

  // ---------------------------------------------------------------------------
  // Sorting incoming packages into installed and updated

  /** Installed and updated together are the input, in input order, each
      incoming package in exactly one of them. */
  lemma {:induction false} ClassifyInterleaves(m: map<string, Pkg>, ps: seq<Pkg>)
    ensures Interleaving(Installed(m, ps), Updated(m, ps), ps)
    decreases |ps|
  {
    if ps != [] {
      var init, p := ps[..|ps| - 1], ps[|ps| - 1];
      ClassifyInterleaves(m, init);
      var a, u := Installed(m, init), Updated(m, init);
      if p.name in m || p.name in NameSet(init) {
        assert Updated(m, ps) == u + [p] && Installed(m, ps) == a;
        assert (u + [p])[..|u|] == u;
      } else {
        assert Installed(m, ps) == a + [p] && Updated(m, ps) == u;
        assert (a + [p])[..|a|] == a;
      }
    }
  }

  /** The installed names are exactly the incoming names that were not keys
      before, each once. */
  lemma {:induction false} InstalledNames(m: map<string, Pkg>, ps: seq<Pkg>)
    ensures NameSet(Installed(m, ps)) == NameSet(ps) - m.Keys
    ensures NoDup(Names(Installed(m, ps)))
    decreases |ps|
  {
    if ps != [] {
      var init, p := ps[..|ps| - 1], ps[|ps| - 1];
      InstalledNames(m, init);
      assert ps == init + [p];
      assert NameSet(ps) == NameSet(init) + {p.name};
      var a := Installed(m, init);
      if !(p.name in m || p.name in NameSet(init)) {
        assert Installed(m, ps) == a + [p];
        AppendFreshName(a, p);
      } else {
        assert Installed(m, ps) == a;
      }
    }
  }

  /** Appending a package whose name is new keeps the names distinct. */
  lemma AppendFreshName(a: seq<Pkg>, p: Pkg)
    requires NoDup(Names(a)) && p.name !in NameSet(a)
    ensures NameSet(a + [p]) == NameSet(a) + {p.name}
    ensures NoDup(Names(a + [p]))
  {
    assert Names(a + [p]) == Names(a) + [p.name];
    forall k | 0 <= k < |a| ensures Names(a)[k] != p.name {
      assert a[k] in a;
    }
  }

  // ---------------------------------------------------------------------------
  // Removing packages by name

  /** The packages found are exactly the table's packages under requested
      names, each once, and there are no more of them than names requested. */
  lemma {:induction false} FoundExactly(m: map<string, Pkg>, ns: seq<string>)
    requires KeysMatch(m)
    ensures NameSet(Found(m, ns)) == Elems(ns) * m.Keys
    ensures NoDup(Names(Found(m, ns)))
    ensures forall p :: p in Found(m, ns) ==> p.name in m && m[p.name] == p
    ensures |Found(m, ns)| <= |ns|
    decreases |ns|
  {
    if ns != [] {
      var init, n := ns[..|ns| - 1], ns[|ns| - 1];
      FoundExactly(m, init);
      assert ns == init + [n];
      assert Elems(ns) == Elems(init) + {n};
      var a := Found(m, init);
      if n in m && n !in init {
        assert Found(m, ns) == a + [m[n]];
        assert NameSet(a + [m[n]]) == NameSet(a) + {n};
        assert Names(a + [m[n]]) == Names(a) + [n];
        forall k | 0 <= k < |a| ensures Names(a)[k] != n {
          assert a[k] in a;
        }
      } else {
        assert Found(m, ns) == a;
      }
    }
  }

  /** Deleting keys leaves the other keys, without repeats if there were none. */
  lemma {:induction false} KeepContents(order: seq<string>, gone: set<string>)
    ensures forall n :: n in Keep(order, gone) <==> n in order && n !in gone
    ensures NoDup(order) ==> NoDup(Keep(order, gone))
    decreases |order|
  {
    if order != [] {
      var init, n := order[..|order| - 1], order[|order| - 1];
      KeepContents(init, gone);
      assert order == init + [n];
      if NoDup(order) {
        assert NoDup(init);
        assert n !in init;
      }
    }
  }

  /** Deleting two groups of keys one after the other deletes their union. */
  lemma {:induction false} KeepTwice(order: seq<string>, a: set<string>, b: set<string>)
    ensures Keep(Keep(order, a), b) == Keep(order, a + b)
    decreases |order|
  {
    if order != [] {
      var init, n := order[..|order| - 1], order[|order| - 1];
      KeepTwice(init, a, b);
      var k := Keep(init, a);
      if n !in a {
        assert Keep(order, a) == k + [n];
        assert (k + [n])[..|k + [n]| - 1] == k;
        assert Keep(k + [n], b) == Keep(k, b) + (if n in b then [] else [n]);
      } else {
        assert n in a + b;
        assert Keep(order, a) == k;
        assert Keep(order, a + b) == Keep(init, a + b);
      }
    }
  }

  /** Deleting keys that are not there changes nothing. */
  lemma {:induction false} KeepAbsent(order: seq<string>, gone: set<string>)
    requires forall n :: n in order ==> n !in gone
    ensures Keep(order, gone) == order
    decreases |order|
  {
    if order != [] {
      var init := order[..|order| - 1];
      assert forall n :: n in init ==> n in order;
      KeepAbsent(init, gone);
      assert order == init + [order[|order| - 1]];
    }
  }

  /** Deleting keys only the table holds is deleting the requested keys. */
  lemma {:induction false} KeepOnlyPresent(order: seq<string>, gone: set<string>, keys: set<string>)
    requires forall k :: k in order ==> k in keys
    ensures Keep(order, gone * keys) == Keep(order, gone)
    decreases |order|
  {
    if order != [] {
      var init := order[..|order| - 1];
      assert forall k :: k in init ==> k in order;
      KeepOnlyPresent(init, gone, keys);
    }
  }

  /** One step of removing names in order: the next name's package is reported
      only when that name is still a key. */
  lemma FoundStep(m0: map<string, Pkg>, ns: seq<string>, i: nat)
    requires i < |ns|
    ensures ns[i] in m0 - Elems(ns[..i]) ==> Found(m0, ns[..i + 1]) == Found(m0, ns[..i]) + [m0[ns[i]]]
    ensures ns[i] !in m0 - Elems(ns[..i]) ==> Found(m0, ns[..i + 1]) == Found(m0, ns[..i])
  {
    assert ns[..i + 1][..i] == ns[..i];
    assert ns[i] in ns[..i] <==> ns[i] in Elems(ns[..i]);
  }

  /** One step of removing names in order: the keys deleted so far grow by the
      next name exactly when it is still a key. */
  lemma GoneStep(m0: map<string, Pkg>, ns: seq<string>, i: nat)
    requires i < |ns|
    ensures ns[i] in m0 - Elems(ns[..i]) ==>
              Elems(ns[..i + 1]) * m0.Keys == Elems(ns[..i]) * m0.Keys + {ns[i]}
    ensures ns[i] !in m0 - Elems(ns[..i]) ==>
              Elems(ns[..i + 1]) * m0.Keys == Elems(ns[..i]) * m0.Keys
  {
    assert ns[..i + 1] == ns[..i] + [ns[i]];
  }

  /** The `forEach` loop of `removePackages` on the table's value: deletes each
      requested name that is still a key, and collects the packages it deleted,
      in request order. */
  method RemoveNames(m0: map<string, Pkg>, o0: seq<string>, names: seq<string>)
    returns (m: map<string, Pkg>, o: seq<string>, removed: seq<Pkg>)
    requires forall k :: k in o0 ==> k in m0
    ensures m == m0 - Elems(names)
    ensures o == Keep(o0, Elems(names))
    ensures removed == Found(m0, names)
  {
    m, o, removed := m0, o0, [];
    var i := 0;
    KeepAbsent(o, {});
    assert Elems(names[..0]) * m0.Keys == {};
    while i < |names|
      invariant 0 <= i <= |names|
      invariant removed == Found(m0, names[..i])
      invariant m == m0 - Elems(names[..i])
      invariant o == Keep(o0, Elems(names[..i]) * m0.Keys)
    {
      var n := names[i];
      FoundStep(m0, names, i);
      GoneStep(m0, names, i);
      if n in m {
        KeepTwice(o0, Elems(names[..i]) * m0.Keys, {n});
        removed := removed + [m[n]];
        m := m - {n};
        o := Keep(o, {n});
      }
      i := i + 1;
    }
    assert names[..|names|] == names;
    KeepOnlyPresent(o0, Elems(names), m0.Keys);
  }

  /** Deleting keys keeps the key order a repeat-free list of exactly the keys. */
  lemma DeleteKeepsTable(order: seq<string>, m: map<string, Pkg>, gone: set<string>)
    requires TableOk(order, m)
    ensures TableOk(Keep(order, gone), m - gone)
  {
    KeepContents(order, gone);
  }

  // ---------------------------------------------------------------------------
  // Listing the table

  /** A key order without repeats, holding exactly the keys, has as many entries
      as the table. */
  lemma {:induction false} OrderSize(order: seq<string>, keys: set<string>)
    requires NoDup(order)
    requires forall n :: n in keys <==> n in order
    ensures |order| == |keys|
    decreases |order|
  {
    if order != [] {
      var init, n := order[..|order| - 1], order[|order| - 1];
      assert order == init + [n];
      assert n !in init;
      OrderSize(init, keys - {n});
    }
  }

  /** The listing holds each package of the table once, and nothing else. */
  lemma ListingCoversTable(order: seq<string>, m: map<string, Pkg>)
    requires NoDup(order) && (forall n :: n in m <==> n in order) && KeysMatch(m)
    ensures |Listing(order, m)| == |m|
    ensures forall p :: p in Listing(order, m) <==> p.name in m && m[p.name] == p
    ensures NoDup(Names(Listing(order, m)))
  {
    OrderSize(order, m.Keys);
    var l := Listing(order, m);
    forall p: Pkg | p.name in m && m[p.name] == p ensures p in l {
      var i :| 0 <= i < |order| && order[i] == p.name;
      assert l[i] == p;
    }
  }
}
