/** The external module catalog: merging the remote manifest feed with the
    locally installed modules on load, and the uniqueness validation that
    follows it (ExternalModuleCatalog.cs). */
module ModuleCatalog {
  import opened Wrappers

  /** A semantic version; ordered lexicographically on (major, minor, patch). */
  datatype Version = Version(major: nat, minor: nat, patch: nat)

  predicate VersionLess(a: Version, b: Version) {
    || a.major < b.major
    || (a.major == b.major && a.minor < b.minor)
    || (a.major == b.major && a.minor == b.minor && a.patch < b.patch)
  }

  predicate VersionAtMost(a: Version, b: Version) {
    VersionLess(a, b) || a == b
  }

  /** A declared dependency: the module id and the version it was built against,
      which the semantic-version compatibility test reads as a range. */
  datatype Dependency = Dependency(id: string, version: Version)

  datatype InitializationMode = WhenAvailable | OnDemand

  /** A manifest module record. */
  datatype ModuleRecord = ModuleRecord(
    id: string,
    version: Version,
    dependencies: seq<Dependency>,
    isInstalled: bool,
    errors: seq<string>,
    mode: InitializationMode)

  /** `ManifestModuleInfo.Equals`, taken to compare the (id, version) pair. */
  predicate Same(a: ModuleRecord, b: ModuleRecord) {
    a.id == b.id && a.version == b.version
  }

  /** `Contains` under `Same`. */
  predicate ContainsSame(s: seq<ModuleRecord>, x: ModuleRecord) {
    exists k :: 0 <= k < |s| && Same(s[k], x)
  }

  /** No two entries of `s` are equal. */
  predicate NoDuplicates(s: seq<ModuleRecord>) {
    forall i, j :: 0 <= i < j < |s| ==> !Same(s[i], s[j])
  }

  datatype CatalogError =
    | ManifestDownloadFailed(reason: string)
    | DuplicateModule(duplicate: ModuleRecord)
    | NotManifestModule
    | NoMatchingDependency(id: string)

  // ---------------------------------------------------------------------
  // Load of the remote manifests

  /** What the download and JSON decoding of the manifest feed produced:
      a list (possibly null) or an exception. */
  datatype FeedResponse = Decoded(manifests: Option<seq<ModuleRecord>>) | Faulted(reason: string)

  /** `LoadModulesManifests`: a null or empty list gives no records, and an
      exception is rethrown. */
  function LoadModulesManifests(response: FeedResponse): (r: Result<seq<ModuleRecord>, CatalogError>)
    ensures response.Faulted? <==> r.Failure?
    ensures response.Faulted? ==> r.error == ManifestDownloadFailed(response.reason)
    ensures response.Decoded? && response.manifests.None? ==> r == Success([])
    ensures response.Decoded? && response.manifests.Some? ==> r == Success(response.manifests.value)
  {
    match response
    case Faulted(reason) => Failure(ManifestDownloadFailed(reason))
    case Decoded(manifests) =>
      if manifests.None? || |manifests.value| == 0 then Success([]) else Success(manifests.value)
  }

  // ---------------------------------------------------------------------
  // Merge on load

  /** Index of the first record of `s` equal to `x`, if any. */
  function FirstSameIndex(s: seq<ModuleRecord>, x: ModuleRecord): (r: Option<nat>)
    ensures r.None? <==> !ContainsSame(s, x)
    ensures r.Some? ==> r.value < |s| && Same(s[r.value], x)
    ensures r.Some? ==> forall j :: 0 <= j < r.value ==> !Same(s[j], x)
    decreases |s|
  {
    if |s| == 0 then None
    else if Same(s[0], x) then Some(0)
    else
      var t := FirstSameIndex(s[1..], x);
      if t.None? then
        assert forall k :: 1 <= k < |s| ==> s[k] == s[1..][k - 1];
        None
      else
        assert forall j :: 1 <= j < t.value + 1 ==> s[j] == s[1..][j - 1];
        Some(t.value + 1)
  }

  /** A remote record as it enters the catalog: it takes `IsInstalled` and
      `Errors` from the first equal installed record, and is marked OnDemand. */
  function Adopt(remote: ModuleRecord, installed: seq<ModuleRecord>): (r: ModuleRecord)
    ensures Same(r, remote) && r.dependencies == remote.dependencies
    ensures r.mode == OnDemand
    ensures !ContainsSame(installed, remote) ==> r.isInstalled == remote.isInstalled && r.errors == remote.errors
    ensures ContainsSame(installed, remote) ==>
              exists i :: 0 <= i < |installed| && Same(installed[i], remote)
                          && (forall j :: 0 <= j < i ==> !Same(installed[j], remote))
                          && r.isInstalled == installed[i].isInstalled && r.errors == installed[i].errors
  {
    var inherited :=
      match FirstSameIndex(installed, remote)
      case Some(i) => remote.(isInstalled := installed[i].isInstalled, errors := installed[i].errors)
      case None => remote;
    inherited.(mode := OnDemand)
  }

  /** Equal records are found in the same sequences. */
  lemma ContainsSameRespectsSame(s: seq<ModuleRecord>, a: ModuleRecord, b: ModuleRecord)
    requires Same(a, b)
    ensures ContainsSame(s, a) <==> ContainsSame(s, b)
  {
  }

  /** A record missing from a sequence is equal to nothing found in it. */
  lemma NotContainedNotSame(s: seq<ModuleRecord>, a: ModuleRecord, b: ModuleRecord)
    requires ContainsSame(s, a) && !ContainsSame(s, b)
    ensures !Same(a, b)
  {
  }

  /** First loop of `InnerLoad`: each remote record not already in the
      catalog is adopted and appended. */
  function MergeRemote(catalog: seq<ModuleRecord>, installed: seq<ModuleRecord>, remote: seq<ModuleRecord>): (r: seq<ModuleRecord>)
    ensures |catalog| <= |r| <= |catalog| + |remote|
    ensures r[..|catalog|] == catalog
    decreases |remote|
  {
    if |remote| == 0 then catalog
    else
      var acc := MergeRemote(catalog, installed, remote[..|remote| - 1]);
      var e := remote[|remote| - 1];
      if ContainsSame(acc, e) then acc
      else
        assert (acc + [Adopt(e, installed)])[..|catalog|] == acc[..|catalog|];
        acc + [Adopt(e, installed)]
  }

  /** `x` is some remote record as adopted into the catalog. */
  predicate AdoptedFromFeed(x: ModuleRecord, remote: seq<ModuleRecord>, installed: seq<ModuleRecord>) {
    exists j :: 0 <= j < |remote| && x == Adopt(remote[j], installed)
  }

  /** Every entry the first loop appends is an adopted remote record. */
  lemma {:induction false} MergeRemoteAddsAdopted(catalog: seq<ModuleRecord>, installed: seq<ModuleRecord>, remote: seq<ModuleRecord>)
    ensures forall k :: |catalog| <= k < |MergeRemote(catalog, installed, remote)| ==>
              AdoptedFromFeed(MergeRemote(catalog, installed, remote)[k], remote, installed)
    decreases |remote|
  {
    if |remote| > 0 {
      var prefix := remote[..|remote| - 1];
      var acc := MergeRemote(catalog, installed, prefix);
      var r := MergeRemote(catalog, installed, remote);
      MergeRemoteAddsAdopted(catalog, installed, prefix);
      forall k | |catalog| <= k < |r| ensures AdoptedFromFeed(r[k], remote, installed) {
        if k < |acc| {
          assert r[k] == acc[k];
          assert AdoptedFromFeed(acc[k], prefix, installed);
          var j :| 0 <= j < |prefix| && acc[k] == Adopt(prefix[j], installed);
          assert prefix[j] == remote[j];
        } else {
          assert r[k] == Adopt(remote[|remote| - 1], installed);
        }
      }
    }
  }

  /** After the first loop every remote record has an equal catalog entry. */
  lemma {:induction false} MergeRemoteCoversRemote(catalog: seq<ModuleRecord>, installed: seq<ModuleRecord>, remote: seq<ModuleRecord>)
    ensures forall j :: 0 <= j < |remote| ==> ContainsSame(MergeRemote(catalog, installed, remote), remote[j])
    decreases |remote|
  {
    if |remote| > 0 {
      var prefix := remote[..|remote| - 1];
      var acc := MergeRemote(catalog, installed, prefix);
      var r := MergeRemote(catalog, installed, remote);
      var e := remote[|remote| - 1];
      MergeRemoteCoversRemote(catalog, installed, prefix);
      assert acc <= r;
      forall j | 0 <= j < |remote| ensures ContainsSame(r, remote[j]) {
        if j < |prefix| {
          assert prefix[j] == remote[j];
          var k :| 0 <= k < |acc| && Same(acc[k], prefix[j]);
          assert r[k] == acc[k];
        } else if !ContainsSame(acc, e) {
          assert Same(r[|acc|], e);
        }
      }
    }
  }

  /** The first remote record of an identity the catalog does not hold is
      appended, adopted. */
  lemma {:induction false} MergeRemoteAddsFirstRemote(catalog: seq<ModuleRecord>, installed: seq<ModuleRecord>, remote: seq<ModuleRecord>, j: nat)
    requires j < |remote|
    requires forall m :: 0 <= m < j ==> !Same(remote[m], remote[j])
    requires !ContainsSame(catalog, remote[j])
    ensures Adopt(remote[j], installed) in MergeRemote(catalog, installed, remote)
    decreases |remote|
  {
    var prefix := remote[..|remote| - 1];
    var acc := MergeRemote(catalog, installed, prefix);
    var e := remote[j];
    if j < |prefix| {
      assert forall m :: 0 <= m <= j ==> prefix[m] == remote[m];
      MergeRemoteAddsFirstRemote(catalog, installed, prefix, j);
      assert acc <= MergeRemote(catalog, installed, remote);
    } else {
      MergeRemoteAddsAdopted(catalog, installed, prefix);
      forall k | 0 <= k < |acc| ensures !Same(acc[k], e) {
        if k < |catalog| {
          assert acc[k] == catalog[k];
        } else {
          assert AdoptedFromFeed(acc[k], prefix, installed);
          var m :| 0 <= m < |prefix| && acc[k] == Adopt(prefix[m], installed);
          assert prefix[m] == remote[m];
        }
      }
      assert MergeRemote(catalog, installed, remote) == acc + [Adopt(e, installed)];
    }
  }

  /** The first loop appends no entry equal to one already present. */
  lemma {:induction false} MergeRemoteKeepsUnique(catalog: seq<ModuleRecord>, installed: seq<ModuleRecord>, remote: seq<ModuleRecord>)
    requires NoDuplicates(catalog)
    ensures NoDuplicates(MergeRemote(catalog, installed, remote))
    decreases |remote|
  {
    if |remote| > 0 {
      var prefix := remote[..|remote| - 1];
      var acc := MergeRemote(catalog, installed, prefix);
      var e := remote[|remote| - 1];
      MergeRemoteKeepsUnique(catalog, installed, prefix);
      if !ContainsSame(acc, e) {
        var r := acc + [Adopt(e, installed)];
        ContainsSameRespectsSame(acc, Adopt(e, installed), e);
        assert forall k :: 0 <= k < |acc| ==> r[k] == acc[k];
      }
    }
  }

  /** Second loop of `InnerLoad`: `installed.Except(catalog)` appended.
      `Except` yields each installed record that is equal neither to a catalog
      entry nor to a record it already yielded, so the loop appends an
      installed record exactly when no equal entry is in the growing catalog. */
  function AddInstalled(catalog: seq<ModuleRecord>, installed: seq<ModuleRecord>): (r: seq<ModuleRecord>)
    ensures |catalog| <= |r| <= |catalog| + |installed|
    ensures r[..|catalog|] == catalog
    decreases |installed|
  {
    if |installed| == 0 then catalog
    else
      var acc := AddInstalled(catalog, installed[..|installed| - 1]);
      var x := installed[|installed| - 1];
      if ContainsSame(acc, x) then acc
      else
        assert (acc + [x])[..|catalog|] == acc[..|catalog|];
        acc + [x]
  }

  /** After the second loop every installed record has an equal catalog entry. */
  lemma {:induction false} AddInstalledCoversInstalled(catalog: seq<ModuleRecord>, installed: seq<ModuleRecord>)
    ensures forall i :: 0 <= i < |installed| ==> ContainsSame(AddInstalled(catalog, installed), installed[i])
    decreases |installed|
  {
    if |installed| > 0 {
      var prefix := installed[..|installed| - 1];
      var acc := AddInstalled(catalog, prefix);
      var r := AddInstalled(catalog, installed);
      var x := installed[|installed| - 1];
      AddInstalledCoversInstalled(catalog, prefix);
      assert acc <= r;
      forall i | 0 <= i < |installed| ensures ContainsSame(r, installed[i]) {
        if i < |prefix| {
          assert prefix[i] == installed[i];
          var k :| 0 <= k < |acc| && Same(acc[k], prefix[i]);
          assert r[k] == acc[k];
        } else if !ContainsSame(acc, x) {
          assert r[|acc|] == x;
        }
      }
    }
  }

  /** `x` is the first record of its identity in `installed`. */
  predicate FirstOfIdentity(x: ModuleRecord, installed: seq<ModuleRecord>) {
    exists i :: 0 <= i < |installed| && x == installed[i]
                && forall j :: 0 <= j < i ==> !Same(installed[j], installed[i])
  }

  /** Every entry the second loop appends is an installed record, unchanged,
      that is the first of its identity in the installed list and had no
      equal entry in the catalog the loop started from. */
  lemma {:induction false} AddInstalledAddsFirstOfIdentity(catalog: seq<ModuleRecord>, installed: seq<ModuleRecord>)
    ensures forall k :: |catalog| <= k < |AddInstalled(catalog, installed)| ==>
              !ContainsSame(catalog, AddInstalled(catalog, installed)[k])
              && FirstOfIdentity(AddInstalled(catalog, installed)[k], installed)
    decreases |installed|
  {
    if |installed| > 0 {
      var prefix := installed[..|installed| - 1];
      var acc := AddInstalled(catalog, prefix);
      var r := AddInstalled(catalog, installed);
      var x := installed[|installed| - 1];
      AddInstalledAddsFirstOfIdentity(catalog, prefix);
      forall k | |catalog| <= k < |r|
        ensures !ContainsSame(catalog, r[k]) && FirstOfIdentity(r[k], installed)
      {
        if k < |acc| {
          assert r[k] == acc[k];
          assert FirstOfIdentity(acc[k], prefix);
          var i :| 0 <= i < |prefix| && acc[k] == prefix[i]
                   && forall j :: 0 <= j < i ==> !Same(prefix[j], prefix[i]);
          assert forall j :: 0 <= j <= i ==> installed[j] == prefix[j];
        } else {
          assert !ContainsSame(acc, x) && r[k] == x;
          AddInstalledCoversInstalled(catalog, prefix);
          forall j | 0 <= j < |prefix| ensures !Same(installed[j], x) {
            assert installed[j] == prefix[j];
            NotContainedNotSame(acc, prefix[j], x);
          }
          forall m | 0 <= m < |catalog| ensures !Same(catalog[m], x) {
            assert acc[m] == catalog[m];
          }
          assert x == installed[|prefix|];
        }
      }
    }
  }

  /** The second loop appends no entry equal to one already present. */
  lemma {:induction false} AddInstalledKeepsUnique(catalog: seq<ModuleRecord>, installed: seq<ModuleRecord>)
    requires NoDuplicates(catalog)
    ensures NoDuplicates(AddInstalled(catalog, installed))
    decreases |installed|
  {
    if |installed| > 0 {
      var prefix := installed[..|installed| - 1];
      var acc := AddInstalled(catalog, prefix);
      var x := installed[|installed| - 1];
      AddInstalledKeepsUnique(catalog, prefix);
      if !ContainsSame(acc, x) {
        var r := acc + [x];
        assert forall k :: 0 <= k < |acc| ==> r[k] == acc[k];
      }
    }
  }

  /** `InnerLoad` after the manifests are fetched, from the catalog's current entries. */
  function InnerLoad(catalog: seq<ModuleRecord>, installed: seq<ModuleRecord>, remote: seq<ModuleRecord>): (r: seq<ModuleRecord>)
    ensures |catalog| <= |r| <= |catalog| + |remote| + |installed|
    ensures r[..|catalog|] == catalog
  {
    var merged := MergeRemote(catalog, installed, remote);
    var r := AddInstalled(merged, installed);
    assert r[..|catalog|] == merged[..|catalog|];
    r
  }

  /** Every entry a load adds is either an adopted remote record, marked
      OnDemand, or an installed record, unchanged, whose identity the feed
      does not list. */
  lemma InnerLoadAddsOnlyAdoptedOrOrphans(catalog: seq<ModuleRecord>, installed: seq<ModuleRecord>, remote: seq<ModuleRecord>)
    ensures var r := InnerLoad(catalog, installed, remote);
            forall k :: |catalog| <= k < |r| ==>
              (AdoptedFromFeed(r[k], remote, installed) && r[k].mode == OnDemand)
              || (r[k] in installed && forall j :: 0 <= j < |remote| ==> !Same(remote[j], r[k]))
  {
    var merged := MergeRemote(catalog, installed, remote);
    var r := InnerLoad(catalog, installed, remote);
    assert r == AddInstalled(merged, installed);
    MergeRemoteAddsAdopted(catalog, installed, remote);
    MergeRemoteCoversRemote(catalog, installed, remote);
    AddInstalledAddsFirstOfIdentity(merged, installed);
    forall k | |catalog| <= k < |r|
      ensures (AdoptedFromFeed(r[k], remote, installed) && r[k].mode == OnDemand)
              || (r[k] in installed && forall j :: 0 <= j < |remote| ==> !Same(remote[j], r[k]))
    {
      if k < |merged| {
        assert r[k] == merged[k];
        assert AdoptedFromFeed(merged[k], remote, installed);
      } else {
        assert FirstOfIdentity(r[k], installed);
        assert !ContainsSame(merged, r[k]);
        forall j | 0 <= j < |remote| ensures !Same(remote[j], r[k]) {
          NotContainedNotSame(merged, remote[j], r[k]);
        }
      }
    }
  }

  /** A load drops no remote record and no installed record: each ends up
      with an equal catalog entry. */
  lemma InnerLoadDropsNothing(catalog: seq<ModuleRecord>, installed: seq<ModuleRecord>, remote: seq<ModuleRecord>)
    ensures forall j :: 0 <= j < |remote| ==> ContainsSame(InnerLoad(catalog, installed, remote), remote[j])
    ensures forall i :: 0 <= i < |installed| ==> ContainsSame(InnerLoad(catalog, installed, remote), installed[i])
  {
    var merged := MergeRemote(catalog, installed, remote);
    var r := InnerLoad(catalog, installed, remote);
    MergeRemoteCoversRemote(catalog, installed, remote);
    AddInstalledCoversInstalled(merged, installed);
    assert merged <= r;
    forall j | 0 <= j < |remote| ensures ContainsSame(r, remote[j]) {
      var m :| 0 <= m < |merged| && Same(merged[m], remote[j]);
      assert r[m] == merged[m];
    }
  }

  /** An installed record whose identity neither the feed nor the starting
      catalog holds is added unchanged, as the first installed record of
      that identity. */
  lemma OrphanAddedUnchanged(catalog: seq<ModuleRecord>, installed: seq<ModuleRecord>, remote: seq<ModuleRecord>, i: nat)
    requires i < |installed|
    requires forall j :: 0 <= j < i ==> !Same(installed[j], installed[i])
    requires !ContainsSame(catalog, installed[i]) && !ContainsSame(remote, installed[i])
    ensures installed[i] in InnerLoad(catalog, installed, remote)
  {
    var merged := MergeRemote(catalog, installed, remote);
    var r := InnerLoad(catalog, installed, remote);
    InnerLoadDropsNothing(catalog, installed, remote);
    InnerLoadAddsOnlyAdoptedOrOrphans(catalog, installed, remote);
    AddInstalledAddsFirstOfIdentity(merged, installed);
    MergeRemoteAddsAdopted(catalog, installed, remote);
    var x := installed[i];
    assert r == AddInstalled(merged, installed);
    forall m | 0 <= m < |merged| ensures !Same(r[m], x) {
      assert r[m] == merged[m];
      if m < |catalog| {
        assert merged[m] == catalog[m];
      } else {
        assert AdoptedFromFeed(merged[m], remote, installed);
        var j :| 0 <= j < |remote| && merged[m] == Adopt(remote[j], installed);
        assert !Same(remote[j], x);
      }
    }
    var k :| 0 <= k < |r| && Same(r[k], x);
    assert k >= |merged|;
    assert FirstOfIdentity(r[k], installed);
    var i' :| 0 <= i' < |installed| && r[k] == installed[i']
              && forall j :: 0 <= j < i' ==> !Same(installed[j], installed[i']);
    assert i' >= i;
    assert i' <= i;
  }

  /** The first remote record of an identity the starting catalog does not
      hold enters the catalog adopted: OnDemand, with the install state of
      the first equal installed record. */
  lemma RemoteAddedAdopted(catalog: seq<ModuleRecord>, installed: seq<ModuleRecord>, remote: seq<ModuleRecord>, j: nat)
    requires j < |remote|
    requires forall m :: 0 <= m < j ==> !Same(remote[m], remote[j])
    requires !ContainsSame(catalog, remote[j])
    ensures Adopt(remote[j], installed) in InnerLoad(catalog, installed, remote)
  {
    MergeRemoteAddsFirstRemote(catalog, installed, remote, j);
    var merged := MergeRemote(catalog, installed, remote);
    assert merged <= InnerLoad(catalog, installed, remote);
  }

  /** A load into a catalog without duplicates leaves it without duplicates. */
  lemma InnerLoadKeepsUnique(catalog: seq<ModuleRecord>, installed: seq<ModuleRecord>, remote: seq<ModuleRecord>)
    requires NoDuplicates(catalog)
    ensures NoDuplicates(InnerLoad(catalog, installed, remote))
  {
    MergeRemoteKeepsUnique(catalog, installed, remote);
    AddInstalledKeepsUnique(MergeRemote(catalog, installed, remote), installed);
  }

  /** A load of the catalog: the manifests are fetched first, so a failed
      download adds nothing. */
  function Load(catalog: seq<ModuleRecord>, installed: seq<ModuleRecord>, response: FeedResponse): (r: Result<seq<ModuleRecord>, CatalogError>)
    ensures response.Faulted? <==> r.Failure?
    ensures r.Success? ==> |catalog| <= |r.value| && r.value[..|catalog|] == catalog
    ensures response.Decoded? && (response.manifests.None? || response.manifests.value == []) ==>
              r == Success(AddInstalled(catalog, installed))
  {
    var remote :- LoadModulesManifests(response);
    Success(InnerLoad(catalog, installed, remote))
  }

  // ---------------------------------------------------------------------
  // Uniqueness validation

  /** `modules.Count(y => y.Equals(x))`. */
  function CountSame(s: seq<ModuleRecord>, x: ModuleRecord): (n: nat)
    ensures n <= |s|
    decreases |s|
  {
    if |s| == 0 then 0
    else (if Same(s[0], x) then 1 else 0) + CountSame(s[1..], x)
  }

  /** Entry `i` has an equal twin elsewhere in `s`. */
  predicate HasTwin(s: seq<ModuleRecord>, i: nat)
    requires i < |s|
  {
    exists j :: 0 <= j < |s| && j != i && Same(s[j], s[i])
  }

  lemma {:induction false} CountSameZero(s: seq<ModuleRecord>, x: ModuleRecord)
    requires !ContainsSame(s, x)
    ensures CountSame(s, x) == 0
    decreases |s|
  {
    if |s| > 0 {
      assert forall k :: 0 <= k < |s| - 1 ==> s[1..][k] == s[k + 1];
      CountSameZero(s[1..], x);
    }
  }

  lemma {:induction false} CountSameTwice(s: seq<ModuleRecord>, x: ModuleRecord, i: nat, j: nat)
    requires i < j < |s| && Same(s[i], x) && Same(s[j], x)
    ensures CountSame(s, x) >= 2
    decreases |s|
  {
    if i == 0 {
      assert s[1..][j - 1] == s[j];
      if CountSame(s[1..], x) == 0 {
        CountSameOne(s[1..], x, j - 1);
      }
    } else {
      assert s[1..][i - 1] == s[i] && s[1..][j - 1] == s[j];
      CountSameTwice(s[1..], x, i - 1, j - 1);
    }
  }

  lemma {:induction false} CountSameOne(s: seq<ModuleRecord>, x: ModuleRecord, i: nat)
    requires i < |s| && Same(s[i], x)
    ensures CountSame(s, x) >= 1
    decreases |s|
  {
    if i > 0 {
      assert s[1..][i - 1] == s[i];
      CountSameOne(s[1..], x, i - 1);
    }
  }

  lemma {:induction false} CountSameUnique(s: seq<ModuleRecord>, i: nat)
    requires i < |s| && !HasTwin(s, i)
    ensures CountSame(s, s[i]) == 1
    decreases |s|
  {
    var x := s[i];
    if i == 0 {
      assert forall k :: 0 <= k < |s| - 1 ==> s[1..][k] == s[k + 1];
      assert !ContainsSame(s[1..], x) by {
        forall k | 0 <= k < |s| - 1 ensures !Same(s[1..][k], x) {
          assert s[1..][k] == s[k + 1];
        }
      }
      CountSameZero(s[1..], x);
    } else {
      var t := s[1..];
      assert t[i - 1] == x;
      assert !Same(s[0], x);
      assert !HasTwin(t, i - 1) by {
        forall k | 0 <= k < |t| && k != i - 1 ensures !Same(t[k], t[i - 1]) {
          assert t[k] == s[k + 1];
        }
      }
      CountSameUnique(t, i - 1);
    }
  }

  /** An entry is counted more than once exactly when it has an equal twin. */
  lemma {:induction false} CountSameAboveOneIffTwin(s: seq<ModuleRecord>, i: nat)
    requires i < |s|
    ensures CountSame(s, s[i]) > 1 <==> HasTwin(s, i)
  {
    if HasTwin(s, i) {
      var j :| 0 <= j < |s| && j != i && Same(s[j], s[i]);
      if i < j { CountSameTwice(s, s[i], i, j); } else { CountSameTwice(s, s[i], j, i); }
    } else {
      CountSameUnique(s, i);
    }
  }

  /** `modules.FirstOrDefault(x => modules.Count(y => y.Equals(x)) > 1)`, from position `from`. */
  function FirstDuplicateFrom(s: seq<ModuleRecord>, from: nat): (r: Option<nat>)
    requires from <= |s|
    ensures r.Some? ==> from <= r.value < |s| && CountSame(s, s[r.value]) > 1
    ensures r.Some? ==> forall k :: from <= k < r.value ==> CountSame(s, s[k]) <= 1
    ensures r.None? ==> forall k :: from <= k < |s| ==> CountSame(s, s[k]) <= 1
    decreases |s| - from
  {
    if from == |s| then None
    else if CountSame(s, s[from]) > 1 then Some(from)
    else FirstDuplicateFrom(s, from + 1)
  }

  /** `ValidateUniqueModules`: fails, naming the first entry that has an
      equal twin, exactly when the catalog holds two equal entries. */
  function ValidateUniqueModules(modules: seq<ModuleRecord>): (r: Result<(), CatalogError>)
    ensures r.Success? <==> NoDuplicates(modules)
    ensures r.Failure? ==>
              exists i :: 0 <= i < |modules| && r.error == DuplicateModule(modules[i])
                          && HasTwin(modules, i)
                          && forall k :: 0 <= k < i ==> !HasTwin(modules, k)
  {
    var d := FirstDuplicateFrom(modules, 0);
    forall k | 0 <= k < |modules| ensures CountSame(modules, modules[k]) > 1 <==> HasTwin(modules, k) {
      CountSameAboveOneIffTwin(modules, k);
    }
    if d.None? then
      assert NoDuplicates(modules) by {
        forall i, j | 0 <= i < j < |modules| ensures !Same(modules[i], modules[j]) {
          assert !HasTwin(modules, i);
        }
      }
      Success(())
    else
      var i := d.value;
      var j :| 0 <= j < |modules| && j != i && Same(modules[j], modules[i]);
      assert !NoDuplicates(modules) by {
        if i < j { assert Same(modules[i], modules[j]); } else { assert Same(modules[j], modules[i]); }
      }
      Failure(DuplicateModule(modules[i]))
  }

  /** A load into an empty catalog never trips the uniqueness validation,
      whatever the installed list and the feed hold. */
  lemma LoadIntoEmptyCatalogIsUnique(installed: seq<ModuleRecord>, remote: seq<ModuleRecord>)
    ensures ValidateUniqueModules(InnerLoad([], installed, remote)).Success?
  {
    InnerLoadKeepsUnique([], installed, remote);
  }
}
