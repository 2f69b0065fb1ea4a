/** Selection of one version per dependency id among all the candidate
    versions gathered for a root module (`GetDependentModulesInner` of the
    external module catalog). The gathering itself and the semantic-version
    compatibility test are parameters. */
module DependencySelection {
  import opened Wrappers
  import opened ModuleCatalog

  /** The module whose dependencies are resolved: a manifest module, or any
      other kind of module info, which the catalog refuses. */
  datatype RootModule = ManifestRoot(manifest: ModuleRecord) | OtherRoot

  /** `IsCompatibleWithBySemVer(declared, candidate)`: pure and deterministic. */
  type Compatibility = (Version, Version) -> bool

  lemma VersionOrderIsTotal(a: Version, b: Version)
    ensures VersionLess(a, b) || a == b || VersionLess(b, a)
    ensures !(VersionLess(a, b) && VersionLess(b, a))
  {
  }

  /** Position of the first element of greatest version: the head of a
      stable `OrderByDescending(x => x.Version)`. */
  function FirstMaxIndex(s: seq<ModuleRecord>): (i: nat)
    requires |s| > 0
    ensures i < |s|
    ensures forall j :: 0 <= j < |s| ==> VersionAtMost(s[j].version, s[i].version)
    ensures forall j :: 0 <= j < i ==> VersionLess(s[j].version, s[i].version)
    decreases |s|
  {
    if |s| == 1 then 0
    else
      var t := FirstMaxIndex(s[1..]) + 1;
      assert forall j :: 1 <= j < |s| ==> s[j] == s[1..][j - 1];
      if VersionLess(s[0].version, s[t].version) then t
      else
        VersionOrderIsTotal(s[0].version, s[t].version);
        0
  }

  /** `group.Where(x => compatible(declared, x.Version))`, order kept. */
  function FilterCompatible(s: seq<ModuleRecord>, declared: Version, compatible: Compatibility): (r: seq<ModuleRecord>)
    ensures forall x :: x in r <==> x in s && compatible(declared, x.version)
    decreases |s|
  {
    if |s| == 0 then []
    else
      var rest := FilterCompatible(s[1..], declared, compatible);
      assert forall x :: x in s <==> x == s[0] || x in s[1..];
      if compatible(declared, s[0].version) then [s[0]] + rest else rest
  }

  /** The installed records of `s`, order kept. */
  function FilterInstalled(s: seq<ModuleRecord>): (r: seq<ModuleRecord>)
    ensures forall x :: x in r <==> x in s && x.isInstalled
    decreases |s|
  {
    if |s| == 0 then []
    else
      var rest := FilterInstalled(s[1..]);
      assert forall x :: x in s <==> x == s[0] || x in s[1..];
      if s[0].isInstalled then [s[0]] + rest else rest
  }

  /** The group of `GroupBy(x => x.Id)` for `id`, order kept. */
  function GroupOf(s: seq<ModuleRecord>, id: string): (r: seq<ModuleRecord>)
    ensures forall x :: x in r <==> x in s && x.id == id
    decreases |s|
  {
    if |s| == 0 then []
    else
      var rest := GroupOf(s[1..], id);
      assert forall x :: x in s <==> x == s[0] || x in s[1..];
      if s[0].id == id then [s[0]] + rest else rest
  }

  /** The keys of `GroupBy(x => x.Id)`: every gathered id, each once. */
  function DistinctIds(s: seq<ModuleRecord>): (r: seq<string>)
    ensures forall id :: id in r <==> exists x :: x in s && x.id == id
    ensures forall i, j :: 0 <= i < j < |r| ==> r[i] != r[j]
    decreases |s|
  {
    if |s| == 0 then []
    else
      var init := s[..|s| - 1];
      var last := s[|s| - 1];
      var d := DistinctIds(init);
      assert forall x :: x in s <==> x in init || x == last;
      if last.id in d then d else d + [last.id]
  }

  /** `manifestModule.Dependencies.First(x => x.Id == id)`, as an option. */
  function FindDependency(deps: seq<Dependency>, id: string): (r: Option<Dependency>)
    ensures r.None? <==> forall d :: d in deps ==> d.id != id
    ensures r.Some? ==> r.value in deps && r.value.id == id
    ensures r.Some? ==> exists i :: 0 <= i < |deps| && deps[i] == r.value
                                    && forall j :: 0 <= j < i ==> deps[j].id != id
    decreases |deps|
  {
    if |deps| == 0 then None
    else if deps[0].id == id then Some(deps[0])
    else
      var r := FindDependency(deps[1..], id);
      assert forall d :: d in deps <==> d == deps[0] || d in deps[1..];
      if r.Some? then
        var i :| 0 <= i < |deps[1..]| && deps[1..][i] == r.value
                 && forall j :: 0 <= j < i ==> deps[1..][j].id != id;
        assert deps[i + 1] == r.value;
        assert forall j :: 1 <= j < i + 1 ==> deps[j] == deps[1..][j - 1];
        r
      else r
  }

  /** The version chosen for one group: the highest installed compatible
      candidate, else the highest compatible candidate, else nothing. */
  function SelectBest(group: seq<ModuleRecord>, declared: Version, compatible: Compatibility): (r: Option<ModuleRecord>)
    ensures r.None? <==> forall x :: x in group ==> !compatible(declared, x.version)
    ensures r.Some? ==> r.value in group && compatible(declared, r.value.version)
    ensures (exists x :: x in group && compatible(declared, x.version) && x.isInstalled) ==>
              r.Some? && r.value.isInstalled
              && forall x :: x in group && compatible(declared, x.version) && x.isInstalled ==>
                   VersionAtMost(x.version, r.value.version)
    ensures (forall x :: x in group && compatible(declared, x.version) ==> !x.isInstalled) && r.Some? ==>
              forall x :: x in group && compatible(declared, x.version) ==> VersionAtMost(x.version, r.value.version)
  {
    var candidates := FilterCompatible(group, declared, compatible);
    var installed := FilterInstalled(candidates);
    if |installed| > 0 then
      var i := FirstMaxIndex(installed);
      assert forall x :: x in installed ==> exists j :: 0 <= j < |installed| && installed[j] == x;
      Some(installed[i])
    else if |candidates| > 0 then
      var i := FirstMaxIndex(candidates);
      assert forall x :: x in candidates ==> exists j :: 0 <= j < |candidates| && candidates[j] == x;
      Some(candidates[i])
    else
      None
  }

  /** `y` is what the selection rule picks for its own id. */
  predicate ChosenFor(y: ModuleRecord, deps: seq<Dependency>, gathered: seq<ModuleRecord>, compatible: Compatibility) {
    && FindDependency(deps, y.id).Some?
    && SelectBest(GroupOf(gathered, y.id), FindDependency(deps, y.id).value.version, compatible) == Some(y)
  }

  /** The loop over the groups, in key order; a key with no declared
      dependency makes `First` throw. */
  function SelectAll(keys: seq<string>, deps: seq<Dependency>, gathered: seq<ModuleRecord>, compatible: Compatibility): (r: Result<seq<ModuleRecord>, CatalogError>)
    ensures r.Failure? <==> exists id :: id in keys && FindDependency(deps, id).None?
    ensures r.Failure? ==> r.error.NoMatchingDependency? && r.error.id in keys
                           && FindDependency(deps, r.error.id).None?
    ensures r.Success? ==> forall y :: y in r.value ==> y.id in keys && ChosenFor(y, deps, gathered, compatible)
    decreases |keys|
  {
    if |keys| == 0 then Success([])
    else
      var id := keys[0];
      assert forall k :: k in keys <==> k == id || k in keys[1..];
      match FindDependency(deps, id)
      case None =>
        assert id in keys;
        Failure(NoMatchingDependency(id))
      case Some(d) =>
        var rest :- SelectAll(keys[1..], deps, gathered, compatible);
        var pick := SelectBest(GroupOf(gathered, id), d.version, compatible);
        if pick.Some? then
          assert pick.value.id == id;
          Success([pick.value] + rest)
        else Success(rest)
  }

  /** Every key whose group has a compatible candidate yields a record. */
  lemma {:induction false} SelectAllCoversKeys(keys: seq<string>, deps: seq<Dependency>, gathered: seq<ModuleRecord>, compatible: Compatibility)
    requires SelectAll(keys, deps, gathered, compatible).Success?
    ensures forall id :: id in keys && SelectBest(GroupOf(gathered, id), FindDependency(deps, id).value.version, compatible).Some? ==>
              exists y :: y in SelectAll(keys, deps, gathered, compatible).value && y.id == id
    decreases |keys|
  {
    if |keys| > 0 {
      var id := keys[0];
      assert forall k :: k in keys <==> k == id || k in keys[1..];
      SelectAllCoversKeys(keys[1..], deps, gathered, compatible);
      var rest := SelectAll(keys[1..], deps, gathered, compatible).value;
      var pick := SelectBest(GroupOf(gathered, id), FindDependency(deps, id).value.version, compatible);
      if pick.Some? {
        assert SelectAll(keys, deps, gathered, compatible).value == [pick.value] + rest;
        assert pick.value.id == id;
      }
    }
  }

  /** Distinct keys give records with distinct ids. */
  lemma {:induction false} SelectAllDistinctIds(keys: seq<string>, deps: seq<Dependency>, gathered: seq<ModuleRecord>, compatible: Compatibility)
    requires SelectAll(keys, deps, gathered, compatible).Success?
    requires forall i, j :: 0 <= i < j < |keys| ==> keys[i] != keys[j]
    ensures var r := SelectAll(keys, deps, gathered, compatible).value;
            forall i, j :: 0 <= i < j < |r| ==> r[i].id != r[j].id
    decreases |keys|
  {
    if |keys| > 0 {
      var id := keys[0];
      var tail := keys[1..];
      assert forall i, j :: 0 <= i < j < |tail| ==> tail[i] == keys[i + 1] && tail[j] == keys[j + 1];
      SelectAllDistinctIds(tail, deps, gathered, compatible);
      var rest := SelectAll(tail, deps, gathered, compatible).value;
      var pick := SelectBest(GroupOf(gathered, id), FindDependency(deps, id).value.version, compatible);
      if pick.Some? {
        var r := [pick.value] + rest;
        assert SelectAll(keys, deps, gathered, compatible).value == r;
        assert id !in tail;
        assert pick.value.id == id;
        forall j | 1 <= j < |r| ensures r[0].id != r[j].id {
          assert r[j] in rest;
        }
      }
    }
  }

  /** `GetDependentModulesInner`: one record per gathered dependency id, for
      the ids that have a compatible candidate. */
  function GetDependentModules(root: RootModule, gathered: seq<ModuleRecord>, compatible: Compatibility): (r: Result<seq<ModuleRecord>, CatalogError>)
    ensures root.OtherRoot? ==> r == Failure(NotManifestModule)
    ensures root.ManifestRoot? ==>
              (r.Failure? <==> exists x :: x in gathered && FindDependency(root.manifest.dependencies, x.id).None?)
  {
    match root
    case OtherRoot => Failure(NotManifestModule)
    case ManifestRoot(m) => SelectAll(DistinctIds(gathered), m.dependencies, gathered, compatible)
  }

  /** The declared version the root gives for `id`. */
  function DeclaredFor(root: RootModule, id: string): Option<Version>
  {
    match root
    case OtherRoot => None
    case ManifestRoot(m) =>
      match FindDependency(m.dependencies, id)
      case Some(d) => Some(d.version)
      case None => None
  }

  /** A gathered record compatible with the version the root declares for its id. */
  predicate CompatibleCandidate(root: RootModule, x: ModuleRecord, compatible: Compatibility) {
    DeclaredFor(root, x.id).Some? && compatible(DeclaredFor(root, x.id).value, x.version)
  }

  /** The result holds at most one record per dependency id; each is a gathered
      record compatible with the root's declared version for that id; and an
      id appears exactly when it has some compatible candidate. */
  lemma {:induction false} SelectionIsOnePerCompatibleId(root: RootModule, gathered: seq<ModuleRecord>, compatible: Compatibility)
    requires GetDependentModules(root, gathered, compatible).Success?
    ensures var r := GetDependentModules(root, gathered, compatible).value;
            && (forall i, j :: 0 <= i < j < |r| ==> r[i].id != r[j].id)
            && (forall y :: y in r ==> y in gathered && CompatibleCandidate(root, y, compatible))
            && (forall x :: x in gathered ==>
                  ((exists y :: y in r && y.id == x.id) <==>
                   (exists c :: c in gathered && c.id == x.id && CompatibleCandidate(root, c, compatible))))
  {
    var m := root.manifest;
    var keys := DistinctIds(gathered);
    var r := GetDependentModules(root, gathered, compatible).value;
    SelectAllCoversKeys(keys, m.dependencies, gathered, compatible);
    SelectAllDistinctIds(keys, m.dependencies, gathered, compatible);
    forall y | y in r ensures y in gathered && CompatibleCandidate(root, y, compatible) {
      var d := FindDependency(m.dependencies, y.id).value;
      assert y in GroupOf(gathered, y.id);
    }
    forall x | x in gathered
      ensures (exists y :: y in r && y.id == x.id) <==>
              (exists c :: c in gathered && c.id == x.id && CompatibleCandidate(root, c, compatible))
    {
      assert x.id in keys;
      var d := FindDependency(m.dependencies, x.id).value;
      var pick := SelectBest(GroupOf(gathered, x.id), d.version, compatible);
      if exists c :: c in gathered && c.id == x.id && CompatibleCandidate(root, c, compatible) {
        var c :| c in gathered && c.id == x.id && CompatibleCandidate(root, c, compatible);
        assert c in GroupOf(gathered, x.id);
      }
      if exists y :: y in r && y.id == x.id {
        var y :| y in r && y.id == x.id;
        assert y in GroupOf(gathered, x.id);
      }
    }
  }

  /** Selection rule: an id with an installed compatible candidate gets the
      highest-version installed one; otherwise the highest compatible one. */
  lemma {:induction false} SelectionPrefersInstalledThenHighest(root: RootModule, gathered: seq<ModuleRecord>, compatible: Compatibility)
    requires GetDependentModules(root, gathered, compatible).Success?
    ensures forall y :: y in GetDependentModules(root, gathered, compatible).value ==>
              && ((exists x :: x in gathered && x.id == y.id && CompatibleCandidate(root, x, compatible) && x.isInstalled) ==>
                    y.isInstalled
                    && forall x :: x in gathered && x.id == y.id && CompatibleCandidate(root, x, compatible) && x.isInstalled ==>
                         VersionAtMost(x.version, y.version))
              && ((forall x :: x in gathered && x.id == y.id && CompatibleCandidate(root, x, compatible) ==> !x.isInstalled) ==>
                    forall x :: x in gathered && x.id == y.id && CompatibleCandidate(root, x, compatible) ==>
                      VersionAtMost(x.version, y.version))
  {
    forall y | y in GetDependentModules(root, gathered, compatible).value
      ensures (exists x :: x in gathered && x.id == y.id && CompatibleCandidate(root, x, compatible) && x.isInstalled) ==>
                y.isInstalled
                && forall x :: x in gathered && x.id == y.id && CompatibleCandidate(root, x, compatible) && x.isInstalled ==>
                     VersionAtMost(x.version, y.version)
      ensures (forall x :: x in gathered && x.id == y.id && CompatibleCandidate(root, x, compatible) ==> !x.isInstalled) ==>
                forall x :: x in gathered && x.id == y.id && CompatibleCandidate(root, x, compatible) ==>
                  VersionAtMost(x.version, y.version)
    {
      var d := FindDependency(root.manifest.dependencies, y.id).value;
      var group := GroupOf(gathered, y.id);
      assert ChosenFor(y, root.manifest.dependencies, gathered, compatible);
      assert forall x :: x in gathered && x.id == y.id ==> x in group;
    }
  }

  /** When every gathered id is among the root's direct dependencies, the
      selection of a manifest root does not fail. */
  lemma SelectionSucceedsForDirectDependencies(m: ModuleRecord, gathered: seq<ModuleRecord>, compatible: Compatibility)
    requires forall x :: x in gathered ==> exists d :: d in m.dependencies && d.id == x.id
    ensures GetDependentModules(ManifestRoot(m), gathered, compatible).Success?
  {
  }

  /** Two versions of module "X", both compatible with what the root declares:
      an installed 1.0 is chosen over a newer 1.2 that is not installed. */
  lemma InstalledVersionIsPreferred(compatible: Compatibility, x10: ModuleRecord, x12: ModuleRecord, m: ModuleRecord)
    requires x10.id == "X" && x10.version == Version(1, 0, 0) && x10.isInstalled
    requires x12.id == "X" && x12.version == Version(1, 2, 0) && !x12.isInstalled
    requires m.dependencies == [Dependency("X", Version(1, 0, 0))]
    requires compatible(Version(1, 0, 0), x10.version) && compatible(Version(1, 0, 0), x12.version)
    ensures GetDependentModules(ManifestRoot(m), [x10, x12], compatible) == Success([x10])
  {
    var gathered := [x10, x12];
    assert DistinctIds(gathered) == ["X"] by {
      assert gathered[..1] == [x10];
      assert DistinctIds([x10]) == ["X"] by { assert [x10][..0] == []; }
    }
    assert gathered[1..] == [x12] && [x12][1..] == [];
    assert GroupOf([x12], "X") == [x12];
    assert GroupOf(gathered, "X") == gathered;
    var candidates := FilterCompatible(gathered, Version(1, 0, 0), compatible);
    assert FilterCompatible([x12], Version(1, 0, 0), compatible) == [x12];
    assert candidates == gathered;
    assert FilterInstalled([x12]) == [];
    assert FilterInstalled(candidates) == [x10];
    assert ["X"][1..] == [];
  }

  /** With only versions that are not installed, the highest compatible one is chosen. */
  lemma HighestCompatibleIsFallback(compatible: Compatibility, x10: ModuleRecord, x12: ModuleRecord, m: ModuleRecord)
    requires x10.id == "X" && x10.version == Version(1, 0, 0) && !x10.isInstalled
    requires x12.id == "X" && x12.version == Version(1, 2, 0) && !x12.isInstalled
    requires m.dependencies == [Dependency("X", Version(1, 0, 0))]
    requires compatible(Version(1, 0, 0), x10.version) && compatible(Version(1, 0, 0), x12.version)
    ensures GetDependentModules(ManifestRoot(m), [x10, x12], compatible) == Success([x12])
  {
    var gathered := [x10, x12];
    assert DistinctIds(gathered) == ["X"] by {
      assert gathered[..1] == [x10];
      assert DistinctIds([x10]) == ["X"] by { assert [x10][..0] == []; }
    }
    assert gathered[1..] == [x12] && [x12][1..] == [];
    assert GroupOf([x12], "X") == [x12];
    assert GroupOf(gathered, "X") == gathered;
    var candidates := FilterCompatible(gathered, Version(1, 0, 0), compatible);
    assert FilterCompatible([x12], Version(1, 0, 0), compatible) == [x12];
    assert candidates == gathered;
    assert FilterInstalled([x12]) == [];
    assert FilterInstalled(candidates) == [];
    assert FirstMaxIndex(candidates) == 1 by { assert candidates[1..] == [x12]; }
    assert ["X"][1..] == [];
  }
}
