/** The release scope: which SBOM packages AutoTrade depends on, and how every package is accounted
    for by a locked dependency or an external runtime component, never both. */
module ReleaseScope {
  import opened Common

  type Id = string

  const APPLICATION: Id := "SPDXRef-Package-AutoTrade"

  // ------------------------------------------------------------ reachability

  datatype Relation = Relation(dependsOn: bool, source: Id, target: Id)

  ghost predicate DependsOn(relations: seq<Relation>, a: Id, b: Id) {
    exists i :: 0 <= i < |relations| && relations[i] == Relation(true, a, b)
  }

  ghost predicate IsPath(relations: seq<Relation>, p: seq<Id>) {
    p != [] && forall i :: 0 < i < |p| ==> DependsOn(relations, p[i - 1], p[i])
  }

  /** Some chain of dependencies leads from `a` to `b`. */
  ghost predicate Reaches(relations: seq<Relation>, a: Id, b: Id) {
    exists p :: IsPath(relations, p) && p[0] == a && p[|p| - 1] == b
  }

  lemma ReachesSelf(relations: seq<Relation>, a: Id)
    ensures Reaches(relations, a, a)
  {
    assert IsPath(relations, [a]);
  }

  lemma ReachesNext(relations: seq<Relation>, a: Id, b: Id, c: Id)
    requires Reaches(relations, a, b) && DependsOn(relations, b, c)
    ensures Reaches(relations, a, c)
  {
    var p :| IsPath(relations, p) && p[0] == a && p[|p| - 1] == b;
    var q := p + [c];
    forall i | 0 < i < |q| ensures DependsOn(relations, q[i - 1], q[i]) {
      if i < |p| { assert DependsOn(relations, p[i - 1], p[i]); }
    }
    assert IsPath(relations, q);
  }

  ghost predicate Closed(relations: seq<Relation>, s: set<Id>) {
    forall a, b :: a in s && DependsOn(relations, a, b) ==> b in s
  }

  /** A closed set holds everything reachable from its members. */
  lemma {:induction false} ClosedHoldsReachable(relations: seq<Relation>, s: set<Id>, p: seq<Id>)
    requires Closed(relations, s) && IsPath(relations, p) && p[0] in s
    ensures p[|p| - 1] in s
    decreases |p|
  {
    if |p| > 1 {
      assert DependsOn(relations, p[0], p[1]);
      assert IsPath(relations, p[1..]) by {
        forall i | 0 < i < |p[1..]| ensures DependsOn(relations, p[1..][i - 1], p[1..][i]) {
          assert DependsOn(relations, p[i], p[i + 1]);
        }
      }
      ClosedHoldsReachable(relations, s, p[1..]);
    }
  }

  type Edges = map<Id, set<Id>>

  function Targets(edges: Edges, a: Id): set<Id> {
    if a in edges then edges[a] else {}
  }

  ghost predicate EndpointsKnown(relations: seq<Relation>, ids: set<Id>) {
    forall i :: 0 <= i < |relations| && relations[i].dependsOn ==> relations[i].source in ids && relations[i].target in ids
  }

  method BuildEdges(relations: seq<Relation>, ids: set<Id>) returns (r: Result<Edges>)
    ensures r.Ok? <==> EndpointsKnown(relations, ids)
    ensures r.Ok? ==> forall a, b :: b in Targets(r.value, a) <==> DependsOn(relations, a, b)
  {
    var edges: Edges := map[];
    for n := 0 to |relations|
      invariant forall i :: 0 <= i < n && relations[i].dependsOn ==> relations[i].source in ids && relations[i].target in ids
      invariant forall a, b :: b in Targets(edges, a) <==> exists i :: 0 <= i < n && relations[i] == Relation(true, a, b)
    {
      var relation := relations[n];
      if relation.dependsOn {
        if relation.source !in ids || relation.target !in ids {
          return Refused;
        }
        ghost var before := edges;
        edges := edges[relation.source := Targets(edges, relation.source) + {relation.target}];
        forall a, b
          ensures b in Targets(edges, a) <==> exists i :: 0 <= i < n + 1 && relations[i] == Relation(true, a, b)
        {
          if a == relation.source && b == relation.target {
            assert relations[n] == Relation(true, a, b);
          } else {
            assert b in Targets(edges, a) <==> b in Targets(before, a);
          }
        }
      }
    }
    return Ok(edges);
  }

  /** The worklist returns exactly the packages reachable from AutoTrade. */
  method ReachablePackages(relations: seq<Relation>, ids: set<Id>) returns (r: Result<set<Id>>)
    requires APPLICATION in ids
    ensures r.Ok? <==> EndpointsKnown(relations, ids)
    ensures r.Ok? ==> forall id :: id in r.value <==> Reaches(relations, APPLICATION, id)
  {
    var built := BuildEdges(relations, ids);
    if built.Refused? {
      return Refused;
    }
    var edges := built.value;
    var reachable: set<Id> := {APPLICATION};
    var pending: seq<Id> := [APPLICATION];
    ReachesSelf(relations, APPLICATION);
    while pending != []
      invariant APPLICATION in reachable && reachable <= ids
      invariant forall id :: id in pending ==> id in reachable
      invariant forall id :: id in reachable ==> Reaches(relations, APPLICATION, id)
      invariant forall a, b :: a in reachable && a !in pending && b in Targets(edges, a) ==> b in reachable
      decreases ids - reachable, |pending|
    {
      var source := pending[|pending| - 1];
      ghost var popped := pending;
      ghost var start := reachable;
      pending := pending[..|pending| - 1];
      assert popped == pending + [source];
      var todo := Targets(edges, source);
      while todo != {}
        invariant todo <= Targets(edges, source)
        invariant start <= reachable <= ids
        invariant reachable == start ==> pending == popped[..|popped| - 1]
        invariant forall id :: id in popped && id != source ==> id in pending
        invariant forall id :: id in pending ==> id in reachable
        invariant forall id :: id in reachable ==> Reaches(relations, APPLICATION, id)
        invariant forall b :: b in Targets(edges, source) && b !in todo ==> b in reachable
        invariant forall id :: id in reachable && id !in start ==> id in pending
        decreases todo
      {
        var target :| target in todo;
        todo := todo - {target};
        assert DependsOn(relations, source, target);
        if target !in reachable {
          ReachesNext(relations, APPLICATION, source, target);
          reachable := reachable + {target};
          pending := pending + [target];
        }
      }
    }
    assert Closed(relations, reachable);
    forall id | Reaches(relations, APPLICATION, id) ensures id in reachable {
      var p :| IsPath(relations, p) && p[0] == APPLICATION && p[|p| - 1] == id;
      ClosedHoldsReachable(relations, reachable, p);
    }
    return Ok(reachable);
  }

  // -------------------------------------------------------- normalized packages

  /** An SBOM package; `purls` are its package-manager locators, checksums are normalized hex. */
  datatype Package = Package(
    spdxId: Id, name: string, version: string, license: string, purls: seq<string>,
    sha256: Option<string>, sha512: Option<string>)

  predicate PackageOk(p: Package) {
    if p.purls == [] then p.name == "AutoTrade" else |p.purls| == 1 && (p.sha256.Some? || p.sha512.Some?)
  }

  /** Packages are well formed and share neither identifiers nor locators. */
  ghost predicate PackagesOk(packages: seq<Package>) {
    && (forall i :: 0 <= i < |packages| ==> PackageOk(packages[i]))
    && (forall i, j :: 0 <= i < j < |packages| ==> packages[i].spdxId != packages[j].spdxId)
    && (forall i, j :: 0 <= i < j < |packages| && packages[i].purls != [] && packages[j].purls != [] ==>
          packages[i].purls[0] != packages[j].purls[0])
  }

  lemma PackagesOkMeans(packages: seq<Package>)
    ensures PackagesOk(packages) <==>
              && (forall i :: 0 <= i < |packages| ==>
                    (packages[i].purls == [] && packages[i].name == "AutoTrade") ||
                    (|packages[i].purls| == 1 && (packages[i].sha256 != None || packages[i].sha512 != None)))
              && (forall i, j :: 0 <= i < j < |packages| ==> packages[i].spdxId != packages[j].spdxId)
              && (forall i, j :: 0 <= i < j < |packages| && |packages[i].purls| == |packages[j].purls| == 1 ==>
                    packages[i].purls != packages[j].purls)
  {
    if PackagesOk(packages) {
      forall i, j | 0 <= i < j < |packages| && |packages[i].purls| == |packages[j].purls| == 1
        ensures packages[i].purls != packages[j].purls {
        assert packages[i].purls[0] != packages[j].purls[0];
      }
    } else if forall i :: 0 <= i < |packages| ==> PackageOk(packages[i]) {
      forall i, j | 0 <= i < j < |packages| && packages[i].purls != [] && packages[j].purls != [] &&
        packages[i].purls[0] == packages[j].purls[0]
        ensures packages[i].purls == packages[j].purls {
        assert PackageOk(packages[i]) && PackageOk(packages[j]);
      }
    }
  }

  /** The locators map to exactly the external packages. */
  ghost predicate Indexes(byPurl: map<string, Package>, packages: seq<Package>) {
    && (forall i :: 0 <= i < |packages| && packages[i].purls != [] ==>
          packages[i].purls[0] in byPurl && byPurl[packages[i].purls[0]] == packages[i])
    && (forall purl :: purl in byPurl ==>
          exists i :: 0 <= i < |packages| && packages[i].purls != [] && packages[i].purls[0] == purl)
  }

  method NormalizePackages(packages: seq<Package>) returns (r: Result<map<string, Package>>)
    ensures r.Ok? <==> PackagesOk(packages)
    ensures r.Ok? ==> Indexes(r.value, packages)
  {
    var byPurl: map<string, Package> := map[];
    var seen: set<Id> := {};
    for n := 0 to |packages|
      invariant PackagesOk(packages[..n])
      invariant Indexes(byPurl, packages[..n])
      invariant forall id :: id in seen <==> exists i :: 0 <= i < n && packages[i].spdxId == id
    {
      hide PackageOk, PackagesOk, Indexes;
      var p := packages[n];
      ghost var before := packages[..n];
      assert packages[..n + 1] == before + [p];
      if p.spdxId in seen || !PackageOk(p) || (p.purls != [] && p.purls[0] in byPurl) {
        if p.purls != [] && p.purls[0] in byPurl {
          IndexedBefore(byPurl, before, p.purls[0]);
        }
        NotOkLater(packages, n);
        return Refused;
      }
      seen := seen + {p.spdxId};
      if p.purls != [] {
        FreshLocator(byPurl, before, p);
        byPurl := byPurl[p.purls[0] := p];
      }
      IndexStep(before, p, byPurl);
    }
    assert packages[..|packages|] == packages;
    return Ok(byPurl);
  }

  lemma IndexedBefore(byPurl: map<string, Package>, before: seq<Package>, purl: string)
    requires Indexes(byPurl, before) && purl in byPurl
    ensures exists i :: 0 <= i < |before| && before[i].purls != [] && before[i].purls[0] == purl
  {
  }

  lemma NotIndexed(byPurl: map<string, Package>, before: seq<Package>, purl: string)
    requires Indexes(byPurl, before)
    requires forall i :: 0 <= i < |before| && before[i].purls != [] ==> before[i].purls[0] != purl
    ensures purl !in byPurl
  {
  }

  lemma FreshLocator(byPurl: map<string, Package>, before: seq<Package>, p: Package)
    requires Indexes(byPurl, before) && p.purls != [] && p.purls[0] !in byPurl
    ensures forall i :: 0 <= i < |before| && before[i].purls != [] ==> before[i].purls[0] != p.purls[0]
    ensures Indexes(byPurl[p.purls[0] := p] - {p.purls[0]}, before)
  {
    assert byPurl[p.purls[0] := p] - {p.purls[0]} == byPurl;
  }

  lemma IndexStep(before: seq<Package>, p: Package, byPurl: map<string, Package>)
    requires PackagesOk(before) && PackageOk(p)
    requires forall i :: 0 <= i < |before| ==> before[i].spdxId != p.spdxId
    requires p.purls != [] ==> forall i :: 0 <= i < |before| && before[i].purls != [] ==> before[i].purls[0] != p.purls[0]
    requires p.purls != [] ==> p.purls[0] in byPurl && byPurl[p.purls[0]] == p && Indexes(byPurl - {p.purls[0]}, before)
    requires p.purls == [] ==> Indexes(byPurl, before)
    ensures PackagesOk(before + [p]) && Indexes(byPurl, before + [p])
  {
    PackagesSnoc(before, p);
    hide PackagesOk, PackageOk;
    var after := before + [p];
    assert after[|before|] == p;
    forall purl | purl in byPurl
      ensures exists i :: 0 <= i < |after| && after[i].purls != [] && after[i].purls[0] == purl
    {
      if p.purls != [] && purl == p.purls[0] {
      } else {
        assert p.purls != [] ==> purl in byPurl - {p.purls[0]};
        var i :| 0 <= i < |before| && before[i].purls != [] && before[i].purls[0] == purl;
        assert after[i] == before[i];
      }
    }
  }

  lemma PackagesSnoc(before: seq<Package>, p: Package)
    requires PackagesOk(before) && PackageOk(p)
    requires forall i :: 0 <= i < |before| ==> before[i].spdxId != p.spdxId
    requires p.purls != [] ==> forall i :: 0 <= i < |before| && before[i].purls != [] ==> before[i].purls[0] != p.purls[0]
    ensures PackagesOk(before + [p])
  {
    hide PackageOk;
  }

  lemma NotOkLater(packages: seq<Package>, n: nat)
    requires n < |packages|
    requires var p := packages[n];
             || !PackageOk(p)
             || (exists i :: 0 <= i < n && packages[i].spdxId == p.spdxId)
             || (p.purls != [] && exists i :: 0 <= i < n && packages[i].purls != [] && packages[i].purls[0] == p.purls[0])
    ensures !PackagesOk(packages)
  {
  }

  // ------------------------------------------------------------- the mapping

  /** A locked package, and at the same time the identity of a rights record. */
  datatype Key = Key(name: string, version: string, hash: string)

  datatype Rights = Rights(key: Key, license: string)

  datatype External = External(purl: string, name: string, version: string, sha256: string, license: string)

  function NugetPurl(k: Key): string {
    "pkg:nuget/" + k.name + "@" + k.version
  }

  /** The SBOM package a locked identity must meet: same name and version, the hash's SHA-512. */
  predicate LockedMatches(k: Key, license: string, byPurl: map<string, Package>, hex: string -> Option<string>) {
    NugetPurl(k) in byPurl &&
    var p := byPurl[NugetPurl(k)];
    p.name == k.name && p.version == k.version && hex(k.hash).Some? && p.sha512 == hex(k.hash) && p.license == license
  }

  predicate ExternalMatches(e: External, byPurl: map<string, Package>) {
    e.purl in byPurl &&
    var p := byPurl[e.purl];
    p.name == e.name && p.version == e.version && p.sha256 == Some(e.sha256) && p.license == e.license
  }

  function Purls(keys: set<Key>): (r: set<string>)
  {
    set k | k in keys :: NugetPurl(k)
  }

  function NameVersion(k: Key): (string, string) {
    (k.name, k.version)
  }

  /** No identity twice and no second hash for a name and version: together, no name and version
      twice. */
  ghost predicate RightsUnique(rights: seq<Rights>) {
    forall i, j :: 0 <= i < j < |rights| ==> NameVersion(rights[i].key) != NameVersion(rights[j].key)
  }

  ghost predicate ExternalsUnique(externals: seq<External>) {
    forall i, j :: 0 <= i < j < |externals| ==> externals[i].purl != externals[j].purl
  }

  /** The license recorded for each identity. */
  function RightsMap(rights: seq<Rights>): (m: map<Key, string>)
  {
    if rights == [] then map[]
    else RightsMap(rights[..|rights| - 1])[rights[|rights| - 1].key := rights[|rights| - 1].license]
  }

  lemma {:induction false} RightsMapKeys(rights: seq<Rights>)
    ensures forall k :: k in RightsMap(rights) <==> exists i :: 0 <= i < |rights| && rights[i].key == k
  {
    if rights != [] {
      var n := |rights| - 1;
      var init := rights[..n];
      RightsMapKeys(init);
      forall k ensures k in RightsMap(rights) <==> exists i :: 0 <= i < |rights| && rights[i].key == k {
        if k in RightsMap(init) {
          var i :| 0 <= i < n && init[i].key == k;
          assert rights[i].key == k;
        } else if k == rights[n].key {
          assert rights[n].key == k;
        } else if i :| 0 <= i < |rights| && rights[i].key == k {
          assert init[i].key == k;
        }
      }
    }
  }

  lemma {:induction false} RightsMapValues(rights: seq<Rights>, i: nat)
    requires RightsUnique(rights) && i < |rights|
    ensures rights[i].key in RightsMap(rights) && RightsMap(rights)[rights[i].key] == rights[i].license
    decreases |rights|
  {
    var n := |rights| - 1;
    if i < n {
      RightsMapValues(rights[..n], i);
      assert NameVersion(rights[i].key) != NameVersion(rights[n].key);
    }
  }

  /** Everything a successful mapping checks. */
  ghost predicate Mappable(
    byPurl: map<string, Package>, reachable: set<Id>, rights: seq<Rights>, locked: seq<Key>, externals: seq<External>,
    hex: string -> Option<string>)
  {
    && (forall purl :: purl in byPurl ==> byPurl[purl].spdxId in reachable)
    && RightsUnique(rights)
    && RightsMap(rights).Keys == SetOf(locked)
    && (forall k :: k in SetOf(locked) ==> LockedMatches(k, RightsMap(rights)[k], byPurl, hex))
    && ExternalsUnique(externals)
    && (set e | e in externals :: e.purl) == byPurl.Keys - Purls(SetOf(locked))
    && (forall e :: e in externals ==> ExternalMatches(e, byPurl))
  }

  datatype Mapping = Mapping(distributed: seq<Key>, externals: seq<External>)

  method CollectRights(rights: seq<Rights>) returns (r: Result<map<Key, string>>)
    ensures r.Ok? <==> RightsUnique(rights)
    ensures r.Ok? ==> r.value == RightsMap(rights)
  {
    var byKey: map<Key, string> := map[];
    var byNameVersion: map<(string, string), string> := map[];
    for n := 0 to |rights|
      invariant RightsUnique(rights[..n]) && byKey == RightsMap(rights[..n])
      invariant NamesOf(rights[..n], byNameVersion)
      invariant forall nv :: nv in byNameVersion ==> Key(nv.0, nv.1, byNameVersion[nv]) in byKey
    {
      hide RightsMap;
      var record := rights[n];
      var k := record.key;
      ghost var before := rights[..n];
      assert rights[..n + 1] == before + [record];
      RightsSnoc(before, record);
      if k in byKey || (NameVersion(k) in byNameVersion && byNameVersion[NameVersion(k)] != k.hash) {
        var i := SameNameBefore(before, byNameVersion, k);
        assert NameVersion(rights[i].key) == NameVersion(rights[n].key);
        return Refused;
      }
      assert NameVersion(k) !in byNameVersion;
      NamesSnoc(before, byNameVersion, record);
      byNameVersion := byNameVersion[NameVersion(k) := k.hash];
      byKey := byKey[k := record.license];
    }
    assert rights[..|rights|] == rights;
    return Ok(byKey);
  }

  ghost predicate NamesOf(rights: seq<Rights>, names: map<(string, string), string>) {
    forall nv :: nv in names <==> exists i :: 0 <= i < |rights| && NameVersion(rights[i].key) == nv
  }

  lemma NamesSnoc(rights: seq<Rights>, names: map<(string, string), string>, r: Rights)
    requires NamesOf(rights, names)
    ensures NamesOf(rights + [r], names[NameVersion(r.key) := r.key.hash])
  {
    var longer := rights + [r];
    assert longer[|rights|] == r;
    forall nv ensures nv in names || nv == NameVersion(r.key) <==>
                      exists i :: 0 <= i < |longer| && NameVersion(longer[i].key) == nv
    {
      if nv in names {
        var i :| 0 <= i < |rights| && NameVersion(rights[i].key) == nv;
        assert longer[i] == rights[i];
      }
    }
  }

  lemma SameNameBefore(rights: seq<Rights>, names: map<(string, string), string>, k: Key) returns (i: nat)
    requires NamesOf(rights, names) && (k in RightsMap(rights) || NameVersion(k) in names)
    ensures i < |rights| && NameVersion(rights[i].key) == NameVersion(k)
  {
    RightsMapKeys(rights);
    if k in RightsMap(rights) {
      i :| 0 <= i < |rights| && rights[i].key == k;
    } else {
      i :| 0 <= i < |rights| && NameVersion(rights[i].key) == NameVersion(k);
    }
  }

  lemma RightsSnoc(rights: seq<Rights>, r: Rights)
    ensures RightsMap(rights + [r]) == RightsMap(rights)[r.key := r.license]
    ensures RightsUnique(rights) && (forall i :: 0 <= i < |rights| ==> NameVersion(rights[i].key) != NameVersion(r.key)) ==>
              RightsUnique(rights + [r])
  {
    var longer := rights + [r];
    assert longer[..|longer| - 1] == rights;
  }

  /** Repeated locked records are skipped; each distinct one must have rights and match. */
  method MatchLocked(locked: seq<Key>, rights: map<Key, string>, byPurl: map<string, Package>, hex: string -> Option<string>)
    returns (r: Result<seq<Key>>)
    ensures r.Ok? <==> forall k :: k in locked ==> k in rights && LockedMatches(k, rights[k], byPurl, hex)
    ensures r.Ok? ==> SetOf(r.value) == SetOf(locked)
    ensures r.Ok? ==> forall i, j :: 0 <= i < j < |r.value| ==> r.value[i] != r.value[j]
  {
    var packages: seq<Key> := [];
    var seen: set<Key> := {};
    for n := 0 to |locked|
      invariant seen == SetOf(packages) == SetOf(locked[..n])
      invariant forall k :: k in locked[..n] ==> k in rights && LockedMatches(k, rights[k], byPurl, hex)
      invariant forall i, j :: 0 <= i < j < |packages| ==> packages[i] != packages[j]
    {
      var k := locked[n];
      assert locked[..n + 1] == locked[..n] + [k];
      if k !in seen {
        if k !in rights || !LockedMatches(k, rights[k], byPurl, hex) {
          assert k in locked;
          return Refused;
        }
        seen := seen + {k};
        packages := packages + [k];
      }
    }
    assert locked[..|locked|] == locked;
    return Ok(packages);
  }

  method CollectExternals(externals: seq<External>) returns (r: Result<set<string>>)
    ensures r.Ok? <==> ExternalsUnique(externals)
    ensures r.Ok? ==> r.value == set e | e in externals :: e.purl
  {
    var purls: set<string> := {};
    for n := 0 to |externals|
      invariant ExternalsUnique(externals[..n])
      invariant purls == set e | e in externals[..n] :: e.purl
    {
      var e := externals[n];
      assert externals[..n + 1] == externals[..n] + [e];
      if e.purl in purls {
        var f :| f in externals[..n] && f.purl == e.purl;
        var i :| 0 <= i < n && externals[i] == f;
        return Refused;
      }
      purls := purls + {e.purl};
    }
    assert externals[..|externals|] == externals;
    return Ok(purls);
  }

  /** `build_mapping`, its matching and partition part. */
  method BuildMapping(
    byPurl: map<string, Package>, reachable: set<Id>, rights: seq<Rights>, locked: seq<Key>, externals: seq<External>,
    hex: string -> Option<string>) returns (r: Result<Mapping>)
    ensures r.Ok? <==> Mappable(byPurl, reachable, rights, locked, externals, hex)
    ensures r.Ok? ==> SetOf(r.value.distributed) == SetOf(locked) && r.value.externals == externals
    ensures r.Ok? ==> forall i, j :: 0 <= i < j < |r.value.distributed| ==> r.value.distributed[i] != r.value.distributed[j]
  {
    if exists purl :: purl in byPurl && byPurl[purl].spdxId !in reachable {
      return Refused;
    }
    var byKey := CollectRights(rights);
    if byKey.Refused? {
      return Refused;
    }
    var packages := MatchLocked(locked, byKey.value, byPurl, hex);
    if packages.Refused? {
      return Refused;
    }
    if byKey.value.Keys != SetOf(packages.value) {
      return Refused;
    }
    var lockedPurls := Purls(SetOf(packages.value));
    var externalPurls := CollectExternals(externals);
    if externalPurls.Refused? || externalPurls.value != byPurl.Keys - lockedPurls {
      return Refused;
    }
    for n := 0 to |externals|
      invariant forall i :: 0 <= i < n ==> ExternalMatches(externals[i], byPurl)
    {
      if !ExternalMatches(externals[n], byPurl) {
        assert externals[n] in externals;
        return Refused;
      }
    }
    return Ok(Mapping(packages.value, externals));
  }

  // --------------------------------------------------------------- theorems

  /** A successful mapping partitions the package locators into locked and external ones, all of
      them reachable, and locked identities, rights records and locators correspond one to one. */
  lemma MappingPartitions(
    byPurl: map<string, Package>, reachable: set<Id>, rights: seq<Rights>, locked: seq<Key>, externals: seq<External>,
    hex: string -> Option<string>)
    requires Mappable(byPurl, reachable, rights, locked, externals, hex)
    ensures var ours := Purls(SetOf(locked));
            var theirs := set e | e in externals :: e.purl;
            ours !! theirs && ours + theirs == byPurl.Keys
    ensures forall k, l :: k in SetOf(locked) && l in SetOf(locked) && NugetPurl(k) == NugetPurl(l) ==> k == l
    ensures forall k :: k in SetOf(locked) ==> exists i :: 0 <= i < |rights| && rights[i].key == k
    ensures forall i :: 0 <= i < |rights| ==>
              rights[i].key in SetOf(locked) && LockedMatches(rights[i].key, rights[i].license, byPurl, hex)
    ensures |rights| == |SetOf(locked)|
    ensures forall purl :: purl in byPurl ==> byPurl[purl].spdxId in reachable
  {
    forall k, l | k in SetOf(locked) && l in SetOf(locked) && NugetPurl(k) == NugetPurl(l) ensures k == l {
      assert LockedMatches(k, RightsMap(rights)[k], byPurl, hex) && LockedMatches(l, RightsMap(rights)[l], byPurl, hex);
      OneHashEach(rights, k, l);
    }
    forall purl | purl in Purls(SetOf(locked)) ensures purl in byPurl {
      var k :| k in SetOf(locked) && NugetPurl(k) == purl;
      assert LockedMatches(k, RightsMap(rights)[k], byPurl, hex);
    }
    RightsAreLocked(rights, locked);
    RightsCount(rights);
    forall i | 0 <= i < |rights| ensures LockedMatches(rights[i].key, rights[i].license, byPurl, hex) {
      RightsMapValues(rights, i);
      assert LockedMatches(rights[i].key, RightsMap(rights)[rights[i].key], byPurl, hex);
    }
  }

  // ---------------------------------------------------------- the whole scope

  /** The one application package of the SBOM, which has no locator. */
  predicate IsApplication(packages: seq<Package>, i: nat)
    requires i < |packages|
  {
    && packages[i].name == "AutoTrade" && packages[i].spdxId == APPLICATION && packages[i].purls == []
    && forall j :: 0 <= j < |packages| && packages[j].name == "AutoTrade" ==> j == i
  }

  function Ids(packages: seq<Package>): (ids: set<Id>)
    ensures forall i :: 0 <= i < |packages| ==> packages[i].spdxId in ids
  {
    set p | p in packages :: p.spdxId
  }

  ghost predicate IsReachable(relations: seq<Relation>, reachable: set<Id>) {
    forall id :: id in reachable <==> Reaches(relations, APPLICATION, id)
  }

  /** The release scope as a whole: the subject, the graph, the packages and their mapping. */
  ghost predicate Releasable(
    packages: seq<Package>, relations: seq<Relation>, rights: seq<Rights>, locked: seq<Key>, externals: seq<External>,
    hex: string -> Option<string>)
  {
    && (exists i :: 0 <= i < |packages| && IsApplication(packages, i))
    && EndpointsKnown(relations, Ids(packages))
    && PackagesOk(packages)
    && exists byPurl: map<string, Package>, reachable: set<Id> ::
         Indexes(byPurl, packages) && IsReachable(relations, reachable) &&
         Mappable(byPurl, reachable, rights, locked, externals, hex)
  }

  /** The locator belongs to a locked package, or to an external component. */
  ghost predicate IsLocked(locked: seq<Key>, purl: string) {
    exists k :: k in locked && NugetPurl(k) == purl
  }

  ghost predicate IsExternal(externals: seq<External>, purl: string) {
    exists e :: e in externals && e.purl == purl
  }

  /** The SBOM has the package of a locked identity under its locator: the same name and version, the
      SHA-512 that the hash decodes to, and the license of the rights record. */
  ghost predicate HoldsLocked(packages: seq<Package>, k: Key, license: string, hex: string -> Option<string>) {
    exists i :: 0 <= i < |packages| &&
      packages[i].purls == ["pkg:nuget/" + k.name + "@" + k.version] &&
      packages[i].name == k.name && packages[i].version == k.version &&
      packages[i].sha512.Some? && packages[i].sha512 == hex(k.hash) && packages[i].license == license
  }

  /** The same of an external component, by SHA-256. */
  ghost predicate HoldsExternal(packages: seq<Package>, e: External) {
    exists i :: 0 <= i < |packages| &&
      packages[i].purls == [e.purl] &&
      packages[i].name == e.name && packages[i].version == e.version &&
      packages[i].sha256 == Some(e.sha256) && packages[i].license == e.license
  }

  /** From packages and relations to the mapping: the graph, the normalized packages and the matching
      together. On success AutoTrade reaches every package of the SBOM, and every locator belongs to a
      locked package or to an external component and not to both. */
  method MapRelease(
    packages: seq<Package>, relations: seq<Relation>, rights: seq<Rights>, locked: seq<Key>, externals: seq<External>,
    hex: string -> Option<string>) returns (r: Result<Mapping>)
    ensures r.Ok? <==> Releasable(packages, relations, rights, locked, externals, hex)
    ensures r.Ok? ==> forall i :: 0 <= i < |packages| ==> Reaches(relations, APPLICATION, packages[i].spdxId)
    ensures r.Ok? ==> SetOf(r.value.distributed) == SetOf(locked) && r.value.externals == externals
    ensures r.Ok? ==> forall i :: 0 <= i < |packages| && packages[i].purls != [] ==>
                        (IsLocked(locked, packages[i].purls[0]) <==> !IsExternal(externals, packages[i].purls[0]))
    ensures r.Ok? ==> forall k :: k in locked <==> exists n :: 0 <= n < |rights| && rights[n].key == k
    ensures r.Ok? ==> forall n :: 0 <= n < |rights| ==> HoldsLocked(packages, rights[n].key, rights[n].license, hex)
    ensures r.Ok? ==> forall e :: e in externals ==> HoldsExternal(packages, e)
  {
    var subject := HasApplication(packages);
    if !subject {
      return Refused;
    }
    var reachable := ReachablePackages(relations, Ids(packages));
    if reachable.Refused? {
      return Refused;
    }
    var byPurl := NormalizePackages(packages);
    if byPurl.Refused? {
      return Refused;
    }
    r := BuildMapping(byPurl.value, reachable.value, rights, locked, externals, hex);
    ScopeDecides(packages, relations, rights, locked, externals, hex, byPurl.value, reachable.value);
    if r.Ok? {
      ScopeIsCovered(packages, relations, rights, locked, externals, hex, byPurl.value, reachable.value);
      ScopeIsMatched(packages, reachable.value, rights, locked, externals, hex, byPurl.value);
    }
  }

  method HasApplication(packages: seq<Package>) returns (ok: bool)
    ensures ok <==> exists i :: 0 <= i < |packages| && IsApplication(packages, i)
    ensures ok ==> APPLICATION in Ids(packages)
    ensures ok <==>
              exists i :: 0 <= i < |packages| &&
                packages[i].name == "AutoTrade" && packages[i].spdxId == "SPDXRef-Package-AutoTrade" && packages[i].purls == [] &&
                forall j :: 0 <= j < |packages| && packages[j].name == "AutoTrade" ==> j == i
  {
    ok := exists i :: 0 <= i < |packages| && IsApplication(packages, i);
    forall i | 0 <= i < |packages|
      ensures IsApplication(packages, i) <==>
                packages[i].name == "AutoTrade" && packages[i].spdxId == "SPDXRef-Package-AutoTrade" && packages[i].purls == [] &&
                forall j :: 0 <= j < |packages| && packages[j].name == "AutoTrade" ==> j == i
    {
    }
  }

  /** The index and the reachable set are the only ones there are. */
  lemma ScopeDecides(
    packages: seq<Package>, relations: seq<Relation>, rights: seq<Rights>, locked: seq<Key>, externals: seq<External>,
    hex: string -> Option<string>, byPurl: map<string, Package>, reachable: set<Id>)
    requires exists i :: 0 <= i < |packages| && IsApplication(packages, i)
    requires EndpointsKnown(relations, Ids(packages)) && PackagesOk(packages)
    requires Indexes(byPurl, packages) && IsReachable(relations, reachable)
    ensures Releasable(packages, relations, rights, locked, externals, hex) <==>
            Mappable(byPurl, reachable, rights, locked, externals, hex)
  {
    hide PackagesOk, EndpointsKnown, Mappable, Reaches, IsApplication, Indexes;
    if Releasable(packages, relations, rights, locked, externals, hex) {
      var m: map<string, Package>, s: set<Id> :|
        Indexes(m, packages) && IsReachable(relations, s) && Mappable(m, s, rights, locked, externals, hex);
      OneIndex(packages, byPurl, m);
      assert s == reachable;
    }
  }

  lemma OneIndex(packages: seq<Package>, a: map<string, Package>, b: map<string, Package>)
    requires Indexes(a, packages) && Indexes(b, packages)
    ensures a == b
  {
    forall purl ensures purl in a <==> purl in b {
    }
    assert a.Keys == b.Keys;
  }

  lemma ScopeIsCovered(
    packages: seq<Package>, relations: seq<Relation>, rights: seq<Rights>, locked: seq<Key>, externals: seq<External>,
    hex: string -> Option<string>, byPurl: map<string, Package>, reachable: set<Id>)
    requires exists i :: 0 <= i < |packages| && IsApplication(packages, i)
    requires PackagesOk(packages) && Indexes(byPurl, packages) && IsReachable(relations, reachable)
    requires Mappable(byPurl, reachable, rights, locked, externals, hex)
    ensures forall i :: 0 <= i < |packages| ==> Reaches(relations, APPLICATION, packages[i].spdxId)
    ensures forall i :: 0 <= i < |packages| && packages[i].purls != [] ==>
              (IsLocked(locked, packages[i].purls[0]) <==> !IsExternal(externals, packages[i].purls[0]))
  {
    hide Reaches;
    MappingPartitions(byPurl, reachable, rights, locked, externals, hex);
    hide Mappable;
    ReachesSelf(relations, APPLICATION);
    forall i | 0 <= i < |packages| ensures Reaches(relations, APPLICATION, packages[i].spdxId) {
      if packages[i].purls == [] {
        assert PackageOk(packages[i]);
      } else {
        assert packages[i].purls[0] in byPurl;
      }
    }
    forall i | 0 <= i < |packages| && packages[i].purls != []
      ensures IsLocked(locked, packages[i].purls[0]) <==> !IsExternal(externals, packages[i].purls[0])
    {
      var purl := packages[i].purls[0];
      assert purl in byPurl;
      assert purl in Purls(SetOf(locked)) <==> IsLocked(locked, purl);
      assert purl in (set e | e in externals :: e.purl) <==> IsExternal(externals, purl);
    }
  }

  /** Every record has its package, with the very name, version, hash and license. */
  lemma ScopeIsMatched(
    packages: seq<Package>, reachable: set<Id>, rights: seq<Rights>, locked: seq<Key>, externals: seq<External>,
    hex: string -> Option<string>, byPurl: map<string, Package>)
    requires PackagesOk(packages) && Indexes(byPurl, packages)
    requires Mappable(byPurl, reachable, rights, locked, externals, hex)
    ensures forall k :: k in locked <==> exists n :: 0 <= n < |rights| && rights[n].key == k
    ensures forall n :: 0 <= n < |rights| ==> HoldsLocked(packages, rights[n].key, rights[n].license, hex)
    ensures forall e :: e in externals ==> HoldsExternal(packages, e)
  {
    hide RightsMap, Purls, PackagesOk, Indexes, LockedMatches, ExternalMatches, HoldsLocked, HoldsExternal, NugetPurl;
    MappingPartitions(byPurl, reachable, rights, locked, externals, hex);
    forall n | 0 <= n < |rights| ensures HoldsLocked(packages, rights[n].key, rights[n].license, hex) {
      LockedIsHeld(packages, byPurl, rights[n].key, rights[n].license, hex);
    }
    forall e | e in externals ensures HoldsExternal(packages, e) {
      ExternalIsHeld(packages, byPurl, e);
    }
  }

  lemma LockedIsHeld(
    packages: seq<Package>, byPurl: map<string, Package>, k: Key, license: string, hex: string -> Option<string>)
    requires PackagesOk(packages) && Indexes(byPurl, packages)
    ensures LockedMatches(k, license, byPurl, hex) <==> HoldsLocked(packages, k, license, hex)
  {
    if LockedMatches(k, license, byPurl, hex) {
      var i := IndexedPackage(packages, byPurl, NugetPurl(k));
      hide PackagesOk, Indexes;
      assert packages[i].purls == ["pkg:nuget/" + k.name + "@" + k.version];
    }
  }

  lemma ExternalIsHeld(packages: seq<Package>, byPurl: map<string, Package>, e: External)
    requires PackagesOk(packages) && Indexes(byPurl, packages)
    ensures ExternalMatches(e, byPurl) <==> HoldsExternal(packages, e)
  {
    if ExternalMatches(e, byPurl) {
      var i := IndexedPackage(packages, byPurl, e.purl);
      hide PackagesOk, Indexes;
      assert packages[i].purls == [e.purl];
    }
  }

  lemma IndexedPackage(packages: seq<Package>, byPurl: map<string, Package>, purl: string) returns (i: nat)
    requires PackagesOk(packages) && Indexes(byPurl, packages) && purl in byPurl
    ensures i < |packages| && packages[i] == byPurl[purl] && packages[i].purls == [purl]
  {
    i :| 0 <= i < |packages| && packages[i].purls != [] && packages[i].purls[0] == purl;
    assert PackageOk(packages[i]);
  }

  /** A releasable scope, with no index and no worklist: one application, known endpoints, well-formed
      packages all reachable from it; rights records for exactly the locked identities, one for each
      name and version; for each record its package; and each locator either locked or external. */
  lemma ReleasableMeans(
    packages: seq<Package>, relations: seq<Relation>, rights: seq<Rights>, locked: seq<Key>, externals: seq<External>,
    hex: string -> Option<string>)
    ensures Releasable(packages, relations, rights, locked, externals, hex) <==>
              && (exists i :: 0 <= i < |packages| && IsApplication(packages, i))
              && EndpointsKnown(relations, Ids(packages)) && PackagesOk(packages)
              && (forall i :: 0 <= i < |packages| ==> Reaches(relations, APPLICATION, packages[i].spdxId))
              && RightsUnique(rights) && ExternalsUnique(externals)
              && (forall k :: k in locked <==> exists n :: 0 <= n < |rights| && rights[n].key == k)
              && (forall n :: 0 <= n < |rights| ==> HoldsLocked(packages, rights[n].key, rights[n].license, hex))
              && (forall e :: e in externals ==> HoldsExternal(packages, e))
              && (forall i :: 0 <= i < |packages| && packages[i].purls != [] ==>
                    (IsLocked(locked, packages[i].purls[0]) <==> !IsExternal(externals, packages[i].purls[0])))
  {
    hide PackagesOk, EndpointsKnown, Reaches, IsApplication, Indexes, IsLocked, IsExternal, HoldsLocked, HoldsExternal;
    hide IsReachable, RightsUnique, ExternalsUnique, Ids;
    if (exists i :: 0 <= i < |packages| && IsApplication(packages, i))
       && EndpointsKnown(relations, Ids(packages)) && PackagesOk(packages)
    {
      var byPurl := SomeIndex(packages);
      var reachable := SomeReachable(packages, relations);
      hide Releasable, Mappable;
      ScopeDecides(packages, relations, rights, locked, externals, hex, byPurl, reachable);
      if Mappable(byPurl, reachable, rights, locked, externals, hex) {
        ScopeIsCovered(packages, relations, rights, locked, externals, hex, byPurl, reachable);
        ScopeIsMatched(packages, reachable, rights, locked, externals, hex, byPurl);
        MappableUnique(byPurl, reachable, rights, locked, externals, hex);
      }
      if && (forall i :: 0 <= i < |packages| ==> Reaches(relations, APPLICATION, packages[i].spdxId))
         && RightsUnique(rights) && ExternalsUnique(externals)
         && (forall k :: k in locked <==> exists n :: 0 <= n < |rights| && rights[n].key == k)
         && (forall n :: 0 <= n < |rights| ==> HoldsLocked(packages, rights[n].key, rights[n].license, hex))
         && (forall e :: e in externals ==> HoldsExternal(packages, e))
         && (forall i :: 0 <= i < |packages| && packages[i].purls != [] ==>
               (IsLocked(locked, packages[i].purls[0]) <==> !IsExternal(externals, packages[i].purls[0])))
      {
        HeldIsMappable(packages, relations, rights, locked, externals, hex, byPurl, reachable);
      }
    }
  }

  lemma MappableUnique(
    byPurl: map<string, Package>, reachable: set<Id>, rights: seq<Rights>, locked: seq<Key>, externals: seq<External>,
    hex: string -> Option<string>)
    requires Mappable(byPurl, reachable, rights, locked, externals, hex)
    ensures RightsUnique(rights) && ExternalsUnique(externals)
  {
  }

  lemma HeldIsMappable(
    packages: seq<Package>, relations: seq<Relation>, rights: seq<Rights>, locked: seq<Key>, externals: seq<External>,
    hex: string -> Option<string>, byPurl: map<string, Package>, reachable: set<Id>)
    requires PackagesOk(packages) && Indexes(byPurl, packages) && IsReachable(relations, reachable)
    requires forall i :: 0 <= i < |packages| ==> Reaches(relations, APPLICATION, packages[i].spdxId)
    requires RightsUnique(rights) && ExternalsUnique(externals)
    requires forall k :: k in locked <==> exists n :: 0 <= n < |rights| && rights[n].key == k
    requires forall n :: 0 <= n < |rights| ==> HoldsLocked(packages, rights[n].key, rights[n].license, hex)
    requires forall e :: e in externals ==> HoldsExternal(packages, e)
    requires forall i :: 0 <= i < |packages| && packages[i].purls != [] ==>
               (IsLocked(locked, packages[i].purls[0]) <==> !IsExternal(externals, packages[i].purls[0]))
    ensures Mappable(byPurl, reachable, rights, locked, externals, hex)
  {
    hide RightsUnique, ExternalsUnique, HoldsLocked, HoldsExternal, LockedMatches, ExternalMatches, PackagesOk, Reaches;
    hide RightsMap, NugetPurl;
    RightsMapKeys(rights);
    forall k | k in SetOf(locked)
      ensures k in RightsMap(rights) && LockedMatches(k, RightsMap(rights)[k], byPurl, hex)
    {
      var n :| 0 <= n < |rights| && rights[n].key == k;
      RightsMapValues(rights, n);
      LockedIsHeld(packages, byPurl, k, rights[n].license, hex);
    }
    forall e | e in externals ensures ExternalMatches(e, byPurl) {
      ExternalIsHeld(packages, byPurl, e);
    }
    LocatorsSplit(packages, locked, externals, byPurl);
  }

  lemma LocatorsSplit(packages: seq<Package>, locked: seq<Key>, externals: seq<External>, byPurl: map<string, Package>)
    requires Indexes(byPurl, packages)
    requires forall e :: e in externals ==> ExternalMatches(e, byPurl)
    requires forall i :: 0 <= i < |packages| && packages[i].purls != [] ==>
               (IsLocked(locked, packages[i].purls[0]) <==> !IsExternal(externals, packages[i].purls[0]))
    ensures (set e | e in externals :: e.purl) == byPurl.Keys - Purls(SetOf(locked))
  {
    hide NugetPurl;
    forall purl ensures purl in (set e | e in externals :: e.purl) <==> purl in byPurl.Keys - Purls(SetOf(locked)) {
      assert purl in (set e | e in externals :: e.purl) <==> IsExternal(externals, purl);
      assert purl in Purls(SetOf(locked)) <==> IsLocked(locked, purl);
      if purl in byPurl {
        var i :| 0 <= i < |packages| && packages[i].purls != [] && packages[i].purls[0] == purl;
      }
    }
  }

  lemma {:induction false} SomeIndex(packages: seq<Package>) returns (byPurl: map<string, Package>)
    requires PackagesOk(packages)
    ensures Indexes(byPurl, packages)
  {
    if packages == [] {
      byPurl := map[];
    } else {
      var n := |packages| - 1;
      var before, p := packages[..n], packages[n];
      assert packages == before + [p];
      assert PackageOk(p) && PackagesOk(before);
      byPurl := SomeIndex(before);
      if p.purls != [] {
        NotIndexed(byPurl, before, p.purls[0]);
        FreshLocator(byPurl, before, p);
        byPurl := byPurl[p.purls[0] := p];
      }
      hide PackagesOk, PackageOk, Indexes;
      assert forall i :: 0 <= i < |before| ==> before[i].spdxId != p.spdxId;
      IndexStep(before, p, byPurl);
    }
  }

  lemma SomeReachable(packages: seq<Package>, relations: seq<Relation>) returns (reachable: set<Id>)
    requires exists i :: 0 <= i < |packages| && IsApplication(packages, i)
    requires EndpointsKnown(relations, Ids(packages))
    ensures IsReachable(relations, reachable)
  {
    var ids := Ids(packages);
    reachable := set id | id in ids && Reaches(relations, APPLICATION, id);
    assert APPLICATION in ids;
    assert Closed(relations, ids);
    forall id | Reaches(relations, APPLICATION, id) ensures id in reachable {
      var p :| IsPath(relations, p) && p[0] == APPLICATION && p[|p| - 1] == id;
      ClosedHoldsReachable(relations, ids, p);
    }
  }

  lemma OneHashEach(rights: seq<Rights>, k: Key, l: Key)
    requires RightsUnique(rights) && k in RightsMap(rights) && l in RightsMap(rights) && NameVersion(k) == NameVersion(l)
    ensures k == l
  {
    RightsMapKeys(rights);
    var i :| 0 <= i < |rights| && rights[i].key == k;
    var j :| 0 <= j < |rights| && rights[j].key == l;
  }

  lemma RightsAreLocked(rights: seq<Rights>, locked: seq<Key>)
    requires RightsMap(rights).Keys == SetOf(locked)
    ensures forall k :: k in SetOf(locked) ==> exists i :: 0 <= i < |rights| && rights[i].key == k
    ensures forall i :: 0 <= i < |rights| ==> rights[i].key in SetOf(locked)
  {
    RightsMapKeys(rights);
    forall i | 0 <= i < |rights| ensures rights[i].key in SetOf(locked) {
      assert rights[i].key in RightsMap(rights);
    }
    forall k | k in SetOf(locked) ensures exists i :: 0 <= i < |rights| && rights[i].key == k {
      assert k in RightsMap(rights);
    }
  }

  lemma {:induction false} RightsCount(rights: seq<Rights>)
    requires RightsUnique(rights)
    ensures |RightsMap(rights).Keys| == |rights|
  {
    if rights != [] {
      var n := |rights| - 1;
      RightsCount(rights[..n]);
      var m := RightsMap(rights[..n]);
      RightsMapKeys(rights[..n]);
      assert rights[n].key !in m;
      assert RightsMap(rights).Keys == m.Keys + {rights[n].key};
    }
  }

  /** The locator text alone is not injective: a name with an `@` can spell another package's
      locator. It is the exact name and version comparison that makes the correspondence one to
      one. */
  lemma PurlTextIsAmbiguous()
    ensures NugetPurl(Key("a@1", "2", "h")) == NugetPurl(Key("a", "1@2", "h"))
    ensures Key("a@1", "2", "h") != Key("a", "1@2", "h")
  {
    assert "pkg:nuget/" + "a@1" + "@" + "2" == "pkg:nuget/" + "a" + "@" + "1@2";
  }
}
