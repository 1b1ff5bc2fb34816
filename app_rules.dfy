/**
 * The list and validation rules of the renderer: which services the
 * services page shows, when a new service may be saved, which version and
 * download URL an install uses, the project-folder list and the
 * duplicate-free append of a created service.
 */
module AppRules {
  import opened Wrappers

  /** A catalog service as the services page reads it. */
  datatype Service = Service(name: string, displayName: string)

  predicate NoDup<T(==)>(s: seq<T>)
  {
    forall i, j :: 0 <= i < j < |s| ==> s[i] != s[j]
  }

  /** Some service in the list carries the name `n` (`services.find(s => s.name === n)`). */
  predicate Named(services: seq<Service>, n: string)
  {
    exists i :: 0 <= i < |services| && services[i].name == n
  }

  // ---------------------------------------------------------------------------
  // `Array.from(new Set(s))`

  /** The elements of `s` without repetitions, each where it first occurs. */
  function Dedupe(s: seq<string>): (r: seq<string>)
    ensures forall x :: x in r <==> x in s
    ensures NoDup(r)
    ensures |r| <= |s|
  {
    if s == [] then []
    else
      var r := Dedupe(s[..|s| - 1]);
      var x := s[|s| - 1];
      assert forall y :: y in s <==> y in s[..|s| - 1] || y == x;
      if x in r then r else r + [x]
  }

  /** A list without repetitions is its own deduplication. */
  lemma {:induction false} DedupeOfDistinct(s: seq<string>)
    requires NoDup(s)
    ensures Dedupe(s) == s
  {
    if s != [] {
      var init := s[..|s| - 1];
      assert NoDup(init);
      DedupeOfDistinct(init);
      assert s[|s| - 1] !in init;
      assert init + [s[|s| - 1]] == s;
    }
  }

  /** The position of the first `x` in `s`. */
  function FirstIndex(s: seq<string>, x: string): (k: nat)
    requires x in s
    ensures k < |s| && s[k] == x && x !in s[..k]
  {
    if s[0] == x then 0
    else
      assert x in s[1..];
      var k := FirstIndex(s[1..], x) + 1;
      assert s[..k] == [s[0]] + s[1..][..k - 1];
      k
  }

  /** An element of the first part keeps its first position when more is appended. */
  lemma FirstIndexOfPrefix(a: seq<string>, b: seq<string>, x: string)
    requires x in a
    ensures FirstIndex(a + b, x) == FirstIndex(a, x)
  {
    var k := FirstIndex(a, x);
    assert (a + b)[k] == x && (a + b)[..k] == a[..k];
  }

  /**
   * `Array.from(new Set(s))` keeps insertion order: each kept element is
   * listed in the order of its first occurrence in `s`.
   */
  lemma {:induction false} DedupeKeepsFirstOccurrenceOrder(s: seq<string>, i: nat, j: nat)
    requires i < j < |Dedupe(s)|
    ensures FirstIndex(s, Dedupe(s)[i]) < FirstIndex(s, Dedupe(s)[j])
    decreases |s|
  {
    var init, x := s[..|s| - 1], s[|s| - 1];
    var r0, r := Dedupe(init), Dedupe(s);
    assert s == init + [x];
    assert r[i] in s && r[j] in s;
    if j < |r0| {
      assert r[i] == r0[i] && r[j] == r0[j];
      DedupeKeepsFirstOccurrenceOrder(init, i, j);
      FirstIndexOfPrefix(init, [x], r[i]);
      FirstIndexOfPrefix(init, [x], r[j]);
    } else {
      assert r == r0 + [x] && r[j] == x && x !in init;
      assert r[i] == r0[i] && r0[i] in init;
      FirstIndexOfPrefix(init, [x], r[i]);
      assert FirstIndex(s, x) == |init| by {
        assert x !in s[..|init|];
      }
    }
  }

  // ---------------------------------------------------------------------------
  // The services page

  /** The catalog services whose name is installed, in catalog order. */
  function KnownInstalled(services: seq<Service>, names: seq<string>): (r: seq<Service>)
    ensures forall s :: s in r <==> s in services && s.name in names
    ensures |r| <= |services|
  {
    if services == [] then []
    else
      var rest := KnownInstalled(services[1..], names);
      assert forall s :: s in services <==> s == services[0] || s in services[1..];
      if services[0].name in names then [services[0]] + rest else rest
  }

  /** The filter keeps catalog order: it distributes over concatenation and keeps or drops each service alone. */
  lemma {:induction false} KnownInstalledKeepsOrder(a: seq<Service>, b: seq<Service>, names: seq<string>)
    ensures KnownInstalled(a + b, names) == KnownInstalled(a, names) + KnownInstalled(b, names)
    decreases |a|
  {
    if a == [] {
      assert a + b == b;
    } else {
      var ab := a + b;
      assert ab[0] == a[0] && ab[1..] == a[1..] + b;
      KnownInstalledKeepsOrder(a[1..], b, names);
      var rest := KnownInstalled(a[1..], names) + KnownInstalled(b, names);
      assert KnownInstalled(ab, names) == if a[0].name in names then [a[0]] + rest else rest;
      assert [a[0]] + rest == ([a[0]] + KnownInstalled(a[1..], names)) + KnownInstalled(b, names);
    }
  }

  /** One service is kept exactly when its name is installed. */
  lemma KnownInstalledOne(svc: Service, names: seq<string>)
    ensures KnownInstalled([svc], names) == if svc.name in names then [svc] else []
  {
    assert [svc][1..] == [];
  }

  /** The installed names the catalog does not know, each shown under its own name. */
  function Extras(names: seq<string>, services: seq<Service>): (r: seq<Service>)
    ensures forall s :: s in r <==> s.displayName == s.name && s.name in names && !Named(services, s.name)
    ensures |r| <= |names|
  {
    if names == [] then []
    else
      var rest := Extras(names[1..], services);
      assert forall n :: n in names <==> n == names[0] || n in names[1..];
      if Named(services, names[0]) then rest else [Service(names[0], names[0])] + rest
  }

  /** The rows of the services page for the catalog and the keys of the installed-versions map. */
  function ServicesList(services: seq<Service>, installed: seq<string>): seq<Service>
  {
    var names := Dedupe(installed);
    KnownInstalled(services, names) + Extras(names, services)
  }

  /**
   * A row is either a catalog service whose name is installed, or an
   * installed name missing from the catalog shown under that name; every
   * installed name has a row, and every row's name is installed.
   */
  lemma ServicesListRows(services: seq<Service>, installed: seq<string>)
    ensures var list := ServicesList(services, installed);
      && (forall s :: s in list <==>
            (s in services && s.name in installed)
            || (s == Service(s.name, s.name) && s.name in installed && !Named(services, s.name)))
      && (forall n :: n in installed ==> exists s :: s in list && s.name == n)
      && (forall s :: s in list ==> s.name in installed)
  {
    var list := ServicesList(services, installed);
    forall n | n in installed ensures exists s :: s in list && s.name == n {
      if Named(services, n) {
        var i :| 0 <= i < |services| && services[i].name == n;
        assert services[i] in list;
      } else {
        assert Service(n, n) in list;
      }
    }
  }

  /**
   * The services page shows its placeholder exactly when nothing is
   * installed; the rows taken from the catalog come first.
   */
  lemma PlaceholderIffNothingInstalled(services: seq<Service>, installed: seq<string>)
    ensures ServicesList(services, installed) == [] <==> installed == []
    ensures ServicesList(services, installed)[..|KnownInstalled(services, Dedupe(installed))|]
      == KnownInstalled(services, Dedupe(installed))
  {
    if installed != [] {
      ServicesListRows(services, installed);
      assert installed[0] in installed;
      var s :| s in ServicesList(services, installed) && s.name == installed[0];
    } else {
      NothingKnownWithoutNames(services);
    }
  }

  lemma {:induction false} NothingKnownWithoutNames(services: seq<Service>)
    ensures KnownInstalled(services, []) == []
  {
    if services != [] {
      NothingKnownWithoutNames(services[1..]);
    }
  }

  /** The rows added for names the catalog does not know carry distinct names. */
  lemma {:induction false} ExtrasDistinct(names: seq<string>, services: seq<Service>)
    requires NoDup(names)
    ensures forall i, j :: 0 <= i < j < |Extras(names, services)| ==>
      Extras(names, services)[i].name != Extras(names, services)[j].name
  {
    if names != [] {
      assert NoDup(names[1..]);
      ExtrasDistinct(names[1..], services);
      var rest := Extras(names[1..], services);
      forall k | 0 <= k < |rest| ensures rest[k].name != names[0] {
        assert rest[k] in rest;
      }
    }
  }

  // ---------------------------------------------------------------------------
  // Save validation

  /** Which fields of the add-service dialog are in error. */
  datatype SaveErrors = SaveErrors(service: bool, port: bool)

  /**
   * The dialog's check; `toNumber` stands for `Number` followed by
   * `Number.isInteger`, giving None for text that is not an integer.
   */
  function Validate(name: string, port: string, toNumber: string -> Option<int>): SaveErrors
  {
    SaveErrors(name == "", port != "" && !(toNumber(port).Some? && 1 <= toNumber(port).value <= 65535))
  }

  predicate CanSave(e: SaveErrors)
  {
    !e.service && !e.port
  }

  /**
   * Saving proceeds exactly when a service is chosen and the port is either
   * left empty or an integer from 1 to 65535; each failing field is flagged
   * on its own.
   */
  lemma SaveAllowedIff(name: string, port: string, toNumber: string -> Option<int>)
    ensures CanSave(Validate(name, port, toNumber)) <==>
      name != "" && (port == "" || (toNumber(port).Some? && 1 <= toNumber(port).value <= 65535))
    ensures Validate(name, port, toNumber).service <==> name == ""
    ensures port != "" && (toNumber(port) == Some(0) || toNumber(port) == Some(65536) || toNumber(port).None?) ==>
      Validate(name, port, toNumber).port
  {
  }

  // ---------------------------------------------------------------------------
  // Version and download URL

  /** A catalog version entry; an absent field is the empty text. */
  datatype VersionInfo = VersionInfo(version: string, tag: string, x64DownloadUrl: string, downloadUrl: string,
                                     checksum: string)

  /** The index of the first entry carrying `version`. */
  function FindVersion(versions: seq<VersionInfo>, version: string): (r: Option<nat>)
    ensures r.Some? ==> (r.value < |versions| && versions[r.value].version == version
                         && forall j :: 0 <= j < r.value ==> versions[j].version != version)
    ensures r.None? ==> forall j :: 0 <= j < |versions| ==> versions[j].version != version
  {
    if versions == [] then None
    else if versions[0].version == version then Some(0)
    else match FindVersion(versions[1..], version)
      case None => None
      case Some(i) => Some(i + 1)
  }

  /** The requested version if the list has it, else the first; nothing for an empty list. */
  function PickVersion(versions: seq<VersionInfo>, requested: string): Option<VersionInfo>
  {
    if versions == [] then None
    else if requested != "" && FindVersion(versions, requested).Some? then Some(versions[FindVersion(versions, requested).value])
    else Some(versions[0])
  }

  /**
   * A version is picked exactly when the list is non-empty; a requested
   * version the list carries is picked at its first occurrence, and
   * otherwise the first entry is.
   */
  lemma PickVersionFacts(versions: seq<VersionInfo>, requested: string)
    ensures PickVersion(versions, requested).None? <==> versions == []
    ensures requested != "" && (exists j :: 0 <= j < |versions| && versions[j].version == requested) ==>
      exists j :: 0 <= j < |versions| && PickVersion(versions, requested) == Some(versions[j])
        && versions[j].version == requested
        && forall k :: 0 <= k < j ==> versions[k].version != requested
    ensures versions != [] && (requested == "" || forall j :: 0 <= j < |versions| ==> versions[j].version != requested) ==>
      PickVersion(versions, requested) == Some(versions[0])
  {
    if requested != "" && (exists j :: 0 <= j < |versions| && versions[j].version == requested) {
      var i := FindVersion(versions, requested).value;
      assert PickVersion(versions, requested) == Some(versions[i]);
    }
  }

  /** The Windows x64 URL, else the version's own URL, else the empty text. */
  function DownloadUrl(v: VersionInfo): string
  {
    if v.x64DownloadUrl != "" then v.x64DownloadUrl else v.downloadUrl
  }

  /** The version passed to the installer: `version`, else `tag`, else the empty text. */
  function InstallVersion(v: VersionInfo): string
  {
    if v.version != "" then v.version else v.tag
  }

  /** The installer call the Save handler makes: version, URL and checksum, or none. */
  datatype InstallRequest = InstallRequest(version: string, url: string, checksum: string)

  function PlanInstall(versions: seq<VersionInfo>, requested: string): Option<InstallRequest>
  {
    match PickVersion(versions, requested)
      case None => None
      case Some(v) => if DownloadUrl(v) == "" then None else Some(InstallRequest(InstallVersion(v), DownloadUrl(v), v.checksum))
  }

  /**
   * An install is attempted exactly when a version is picked and it has a
   * URL; the x64 URL wins when present, and an empty URL means no install.
   */
  lemma PlanInstallFacts(versions: seq<VersionInfo>, requested: string)
    ensures PlanInstall(versions, requested).Some? <==>
      PickVersion(versions, requested).Some?
      && (PickVersion(versions, requested).value.x64DownloadUrl != "" || PickVersion(versions, requested).value.downloadUrl != "")
    ensures PlanInstall(versions, requested).Some? ==>
      var v := PickVersion(versions, requested).value;
      && PlanInstall(versions, requested).value.url == (if v.x64DownloadUrl != "" then v.x64DownloadUrl else v.downloadUrl)
      && PlanInstall(versions, requested).value.url != ""
      && (v.version != "" ==> PlanInstall(versions, requested).value.version == v.version)
  {
  }

  // ---------------------------------------------------------------------------
  // Project folders

  /** Adding a picked folder (the empty text when the picker was cancelled). */
  function AddFolder(folders: seq<string>, picked: string): seq<string>
  {
    if picked == "" then folders else Dedupe(folders + [picked])
  }

  /** Removing a folder deletes every occurrence of it. */
  function RemoveFolder(folders: seq<string>, f: string): (r: seq<string>)
    ensures forall x :: x in r <==> x in folders && x != f
    ensures |r| <= |folders|
  {
    if folders == [] then []
    else
      var rest := RemoveFolder(folders[1..], f);
      assert forall x :: x in folders <==> x == folders[0] || x in folders[1..];
      if folders[0] == f then rest else [folders[0]] + rest
  }

  /**
   * After adding, the list has no repetitions and holds the new folder and
   * the old ones; a list without repetitions grows by the new folder at the
   * end, or stays as it was when it already held it.
   */
  lemma AddFolderFacts(folders: seq<string>, picked: string)
    requires picked != ""
    ensures var r := AddFolder(folders, picked);
      && NoDup(r) && picked in r
      && (forall x :: x in r <==> x in folders || x == picked)
      && (NoDup(folders) ==> r == if picked in folders then folders else folders + [picked])
  {
    var s := folders + [picked];
    assert s[..|s| - 1] == folders;
    if NoDup(folders) {
      DedupeOfDistinct(folders);
    }
  }

  /** Adding the same folder twice is adding it once. */
  lemma AddFolderIdempotent(folders: seq<string>, picked: string)
    ensures AddFolder(AddFolder(folders, picked), picked) == AddFolder(folders, picked)
  {
    if picked != "" {
      AddFolderFacts(folders, picked);
      AddFolderFacts(AddFolder(folders, picked), picked);
    }
  }

  /** Removing keeps the order of what stays: it distributes over concatenation. */
  lemma {:induction false} RemoveFolderKeepsOrder(a: seq<string>, b: seq<string>, f: string)
    ensures RemoveFolder(a + b, f) == RemoveFolder(a, f) + RemoveFolder(b, f)
    decreases |a|
  {
    if a == [] {
      assert a + b == b;
    } else {
      var ab := a + b;
      assert ab[0] == a[0] && ab[1..] == a[1..] + b;
      RemoveFolderKeepsOrder(a[1..], b, f);
      var rest := RemoveFolder(a[1..], f) + RemoveFolder(b, f);
      assert RemoveFolder(ab, f) == if a[0] == f then rest else [a[0]] + rest;
      assert RemoveFolder(a, f) == if a[0] == f then RemoveFolder(a[1..], f) else [a[0]] + RemoveFolder(a[1..], f);
      assert [a[0]] + rest == ([a[0]] + RemoveFolder(a[1..], f)) + RemoveFolder(b, f);
    }
  }

  /** Removing a folder the list does not hold changes nothing. */
  lemma {:induction false} RemoveAbsentFolder(folders: seq<string>, f: string)
    requires f !in folders
    ensures RemoveFolder(folders, f) == folders
  {
    if folders != [] {
      RemoveAbsentFolder(folders[1..], f);
    }
  }

  /** Removing a folder just added to a list without repetitions restores the list. */
  lemma RemoveUndoesAdd(folders: seq<string>, picked: string)
    requires NoDup(folders) && picked != "" && picked !in folders
    ensures RemoveFolder(AddFolder(folders, picked), picked) == folders
  {
    AddFolderFacts(folders, picked);
    RemoveFolderKeepsOrder(folders, [picked], picked);
    RemoveAbsentFolder(folders, picked);
  }

  // ---------------------------------------------------------------------------
  // Appending a created service

  /** The created service is appended unless one with its name is already there. */
  function AppendService(services: seq<Service>, created: Service): seq<Service>
  {
    if Named(services, created.name) then services else services + [created]
  }

  predicate DistinctNames(services: seq<Service>)
  {
    forall i, j :: 0 <= i < j < |services| ==> services[i].name != services[j].name
  }

  /**
   * After the append a service with the created name is present, the old
   * entries stay in place, appending again changes nothing, and names stay
   * distinct.
   */
  lemma AppendServiceFacts(services: seq<Service>, created: Service)
    ensures var r := AppendService(services, created);
      && Named(r, created.name)
      && r[..|services|] == services
      && |r| <= |services| + 1
      && AppendService(r, created) == r
      && (DistinctNames(services) ==> DistinctNames(r))
  {
    var r := AppendService(services, created);
    if !Named(services, created.name) {
      assert r[|services|] == created;
    }
  }
}
