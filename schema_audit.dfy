// The drift auditor of tools/schema_audit.py: per group, which schema files
// are both on disk and in the manifest (keep), only in the manifest (remove)
// or only on disk (missing).

module SchemaAudit {
  import opened JsonValue

  // ---------------------------------------------------------------------------
  // find_avsc_files
  // ---------------------------------------------------------------------------

  /**
    One entry of `root.iterdir()`: a directory, with the files that
    `rglob("*.avsc")` finds below it (relative to it), or anything else.
  */
  datatype RootEntry = GroupDir(name: string, avsc: seq<string>) | OtherEntry(name: string)

  /** The resolved paths of a group directory's `*.avsc` files, added one by one. */
  function GroupFiles(root: string, dir: string, avsc: seq<string>): set<string>
  {
    if avsc == [] then {}
    else GroupFiles(root, dir, avsc[..|avsc| - 1]) + {Join(Join(root, dir), avsc[|avsc| - 1])}
  }

  /** A path is in a group's set exactly when some file below the directory resolves to it. */
  lemma {:induction false} GroupFilesIff(root: string, dir: string, avsc: seq<string>, p: string)
    ensures p in GroupFiles(root, dir, avsc) <==> exists j :: 0 <= j < |avsc| && p == Join(Join(root, dir), avsc[j])
  {
    if avsc != [] {
      var init := avsc[..|avsc| - 1];
      GroupFilesIff(root, dir, init, p);
      if exists j :: 0 <= j < |init| && p == Join(Join(root, dir), init[j]) {
        var j :| 0 <= j < |init| && p == Join(Join(root, dir), init[j]);
        PrefixIndex(avsc, |avsc| - 1, j);
      }
      if exists j :: 0 <= j < |avsc| && p == Join(Join(root, dir), avsc[j]) {
        var j :| 0 <= j < |avsc| && p == Join(Join(root, dir), avsc[j]);
        if j < |avsc| - 1 {
          PrefixIndex(avsc, |avsc| - 1, j);
        }
      }
    }
  }

  /** A group directory with at least one `*.avsc` file has a non-empty set. */
  lemma {:induction false} GroupFilesEmptyIff(root: string, dir: string, avsc: seq<string>)
    ensures GroupFiles(root, dir, avsc) == {} <==> avsc == []
  {
    if avsc != [] {
      assert Join(Join(root, dir), avsc[|avsc| - 1]) in GroupFiles(root, dir, avsc);
    }
  }

  /** `find_avsc_files`: directory by directory, a group only when it holds a file. */
  function DiskBuckets(root: string, entries: seq<RootEntry>): map<string, set<string>>
  {
    if entries == [] then map[]
    else
      var buckets := DiskBuckets(root, entries[..|entries| - 1]);
      var e := entries[|entries| - 1];
      if e.GroupDir? && GroupFiles(root, e.name, e.avsc) != {} then buckets[e.name := GroupFiles(root, e.name, e.avsc)]
      else buckets
  }

  /**
    Disk groups with no files are omitted; every group present comes from a
    directory of that name and holds that directory's files.
  */
  lemma {:induction false} DiskBucketsGroups(root: string, entries: seq<RootEntry>, g: string)
    requires g in DiskBuckets(root, entries)
    ensures DiskBuckets(root, entries)[g] != {}
    ensures exists i :: (0 <= i < |entries| && entries[i].GroupDir? && entries[i].name == g && entries[i].avsc != [] &&
                         DiskBuckets(root, entries)[g] == GroupFiles(root, g, entries[i].avsc))
  {
    var init := entries[..|entries| - 1];
    var e := entries[|entries| - 1];
    if e.GroupDir? && e.name == g && GroupFiles(root, e.name, e.avsc) != {} {
      GroupFilesEmptyIff(root, g, e.avsc);
      assert entries[|entries| - 1] == e;
    } else {
      DiskBucketsGroups(root, init, g);
      var i :| 0 <= i < |init| && init[i].GroupDir? && init[i].name == g && init[i].avsc != [] &&
        DiskBuckets(root, init)[g] == GroupFiles(root, g, init[i].avsc);
      PrefixIndex(entries, |entries| - 1, i);
    }
  }

  /** Directory names are unique below one root. */
  predicate DistinctNames(entries: seq<RootEntry>)
  {
    forall i, j :: 0 <= i < j < |entries| ==> entries[i].name != entries[j].name
  }

  /** Every directory holding a `*.avsc` file is a group with exactly its files. */
  lemma {:induction false} DiskBucketsComplete(root: string, entries: seq<RootEntry>, i: int)
    requires DistinctNames(entries) && 0 <= i < |entries| && entries[i].GroupDir? && entries[i].avsc != []
    ensures entries[i].name in DiskBuckets(root, entries)
    ensures DiskBuckets(root, entries)[entries[i].name] == GroupFiles(root, entries[i].name, entries[i].avsc)
  {
    var init := entries[..|entries| - 1];
    if i == |entries| - 1 {
      GroupFilesEmptyIff(root, entries[i].name, entries[i].avsc);
    } else {
      PrefixIndex(entries, |entries| - 1, i);
      assert forall a, b :: 0 <= a < b < |init| ==> init[a] == entries[a] && init[b] == entries[b];
      DiskBucketsComplete(root, init, i);
      assert entries[|entries| - 1].name != entries[i].name;
    }
  }

  /** `find_avsc_files`: the outer loop over the root, the inner loop over one group directory. */
  method FindAvscFiles(root: string, entries: seq<RootEntry>) returns (buckets: map<string, set<string>>)
    ensures buckets == DiskBuckets(root, entries)
  {
    buckets := map[];
    var i := 0;
    while i < |entries|
      invariant 0 <= i <= |entries|
      invariant buckets == DiskBuckets(root, entries[..i])
    {
      PrefixInit(entries, i);
      var groupDir := entries[i];
      if groupDir.GroupDir? {
        var groupSet: set<string> := {};
        var j := 0;
        while j < |groupDir.avsc|
          invariant 0 <= j <= |groupDir.avsc|
          invariant groupSet == GroupFiles(root, groupDir.name, groupDir.avsc[..j])
        {
          PrefixInit(groupDir.avsc, j);
          groupSet := groupSet + {Join(Join(root, groupDir.name), groupDir.avsc[j])};
          j := j + 1;
        }
        PrefixAll(groupDir.avsc);
        if groupSet != {} {
          buckets := buckets[groupDir.name := groupSet];
        }
      }
      i := i + 1;
    }
    PrefixAll(entries);
  }

  // ---------------------------------------------------------------------------
  // load_manifest and manifest_entries_to_paths
  // ---------------------------------------------------------------------------

  /** The `ValueError` of `load_manifest`. */
  datatype AuditError = MalformedManifest

  /** `load_manifest` on the parsed document: its `schemas`, `{}` when falsy. */
  function LoadManifest(content: Value): (r: Result<Value, AuditError>)
    ensures r.Err? <==> !content.JObj? || !Has(content, "schemas")
    ensures r.Ok? && Truthy(Get(content, "schemas")) ==> r.value == Get(content, "schemas")
    ensures r.Ok? && !Truthy(Get(content, "schemas")) ==> r.value == JObj([])
  {
    if !content.JObj? || !Has(content, "schemas") then Err(MalformedManifest)
    else Ok(Or(Get(content, "schemas"), JObj([])))
  }

  /** Writing the loaded groups back under "schemas" and loading again gives them unchanged. */
  lemma LoadManifestReload(content: Value)
    requires LoadManifest(content).Ok?
    ensures LoadManifest(Set(content, "schemas", LoadManifest(content).value)) == LoadManifest(content)
  {
  }

  /** An entry the inner loop reads without raising: a dict whose truthy `file` is a string. */
  predicate EntryReadable(e: Value)
  {
    e.JObj? && (Truthy(Get(e, "file")) ==> Get(e, "file").JStr?)
  }

  /** A group value the loop accepts: falsy (skipped), or a list of readable entries. */
  predicate GroupReadable(entries: Value)
  {
    !Truthy(entries) || (entries.JArr? && forall j :: 0 <= j < |entries.items| ==> EntryReadable(entries.items[j]))
  }

  predicate SchemasReadable(schemas: Value)
  {
    schemas.JObj? && forall i :: 0 <= i < |schemas.members| ==> GroupReadable(schemas.members[i].value)
  }

  /** The paths of one group's entries, added one by one; an entry with no or an empty `file` is skipped. */
  function EntryPaths(root: string, es: seq<Value>): set<string>
    requires forall j :: 0 <= j < |es| ==> EntryReadable(es[j])
  {
    if es == [] then {}
    else
      var e := es[|es| - 1];
      assert EntryReadable(e);
      var fp := Get(e, "file");
      EntryPaths(root, es[..|es| - 1]) + (if Truthy(fp) then {Join(root, fp.s)} else {})
  }

  /** A path is in a group's set exactly when some entry of the group has a non-empty `file` resolving to it. */
  lemma {:induction false} EntryPathsIff(root: string, es: seq<Value>, p: string)
    requires forall j :: 0 <= j < |es| ==> EntryReadable(es[j])
    ensures p in EntryPaths(root, es) <==>
      exists j :: 0 <= j < |es| && Truthy(Get(es[j], "file")) && p == Join(root, Get(es[j], "file").s)
  {
    if es != [] {
      var init := es[..|es| - 1];
      EntryPathsIff(root, init, p);
      if exists j :: 0 <= j < |init| && Truthy(Get(init[j], "file")) && p == Join(root, Get(init[j], "file").s) {
        var j :| 0 <= j < |init| && Truthy(Get(init[j], "file")) && p == Join(root, Get(init[j], "file").s);
        PrefixIndex(es, |es| - 1, j);
      }
      if exists j :: 0 <= j < |es| && Truthy(Get(es[j], "file")) && p == Join(root, Get(es[j], "file").s) {
        var j :| 0 <= j < |es| && Truthy(Get(es[j], "file")) && p == Join(root, Get(es[j], "file").s);
        if j < |es| - 1 {
          PrefixIndex(es, |es| - 1, j);
        }
      }
    }
  }

  /** The set of one group: empty for a falsy entry list. */
  function GroupPaths(root: string, entries: Value): set<string>
    requires GroupReadable(entries)
  {
    if Truthy(entries) then EntryPaths(root, entries.items) else {}
  }

  /** `manifest_entries_to_paths`: group by group, `out[group]` set afresh. */
  function ManifestPaths(root: string, ms: seq<Member>): map<string, set<string>>
    requires forall i :: 0 <= i < |ms| ==> GroupReadable(ms[i].value)
  {
    if ms == [] then map[]
    else
      var m := ms[|ms| - 1];
      assert GroupReadable(m.value);
      ManifestPaths(root, ms[..|ms| - 1])[m.key := GroupPaths(root, m.value)]
  }

  /** Every manifest group gets a path set, possibly empty, and no other group does. */
  lemma {:induction false} ManifestPathsKeys(root: string, ms: seq<Member>, g: string)
    requires forall i :: 0 <= i < |ms| ==> GroupReadable(ms[i].value)
    ensures g in ManifestPaths(root, ms) <==> exists i :: 0 <= i < |ms| && ms[i].key == g
  {
    if ms != [] {
      var init := ms[..|ms| - 1];
      ManifestPathsKeys(root, init, g);
      if exists i :: 0 <= i < |ms| && ms[i].key == g {
        var i :| 0 <= i < |ms| && ms[i].key == g;
        if i < |ms| - 1 {
          PrefixIndex(ms, |ms| - 1, i);
        }
      }
      if exists i :: 0 <= i < |init| && init[i].key == g {
        var i :| 0 <= i < |init| && init[i].key == g;
        PrefixIndex(ms, |ms| - 1, i);
      }
    }
  }

  /** In a dict (distinct keys), each group's set is that of its own entries. */
  lemma {:induction false} ManifestPathsOf(root: string, ms: seq<Member>, i: int)
    requires forall i :: 0 <= i < |ms| ==> GroupReadable(ms[i].value)
    requires DistinctKeys(ms) && 0 <= i < |ms|
    ensures ms[i].key in ManifestPaths(root, ms) && ManifestPaths(root, ms)[ms[i].key] == GroupPaths(root, ms[i].value)
  {
    if i < |ms| - 1 {
      var init := ms[..|ms| - 1];
      PrefixIndex(ms, |ms| - 1, i);
      assert forall a, b :: 0 <= a < b < |init| ==> init[a] == ms[a] && init[b] == ms[b];
      ManifestPathsOf(root, init, i);
      assert ms[|ms| - 1].key != ms[i].key;
    }
  }

  /** `manifest_entries_to_paths`, with its two nested loops. */
  method ManifestEntriesToPaths(schemas: Value, projectRoot: string) returns (out: map<string, set<string>>)
    requires SchemasReadable(schemas)
    ensures out == ManifestPaths(projectRoot, schemas.members)
  {
    var ms := schemas.members;
    out := map[];
    var i := 0;
    while i < |ms|
      invariant 0 <= i <= |ms|
      invariant out == ManifestPaths(projectRoot, ms[..i])
    {
      PrefixInit(ms, i);
      var group, entries := ms[i].key, ms[i].value;
      assert GroupReadable(entries);
      var groupSet: set<string> := {};
      if Truthy(entries) {
        var j := 0;
        while j < |entries.items|
          invariant 0 <= j <= |entries.items|
          invariant groupSet == EntryPaths(projectRoot, entries.items[..j])
        {
          PrefixInit(entries.items, j);
          var e := entries.items[j];
          assert EntryReadable(e);
          var fp := Get(e, "file");
          if Truthy(fp) {
            groupSet := groupSet + {Join(projectRoot, fp.s)};
          }
          j := j + 1;
        }
        PrefixAll(entries.items);
      }
      out := out[group := groupSet];
      i := i + 1;
    }
    PrefixAll(ms);
  }

  // ---------------------------------------------------------------------------
  // audit
  // ---------------------------------------------------------------------------

  /** `sorted(...)` of a set of strings: ascending, every element once. */
  ghost predicate SortedListOf(s: seq<string>, x: set<string>)
  {
    StrSorted(s) && forall p :: p in s <==> p in x
  }

  /** Python's `sorted` of a set is determined by the set: two sorted listings are equal. */
  lemma {:induction false} SortedListUnique(a: seq<string>, b: seq<string>, x: set<string>)
    requires SortedListOf(a, x) && SortedListOf(b, x)
    ensures a == b
  {
    ListedEmpty(a, x);
    ListedEmpty(b, x);
    if a != [] && b != [] {
      assert a[0] in x && b[0] in x;
      if a[0] != b[0] {
        var i :| 0 <= i < |b| && b[i] == a[0];
        var j :| 0 <= j < |a| && a[j] == b[0];
        assert i > 0 && j > 0;
        StrLtAsymmetric(a[0], b[0]);
        assert false;
      }
      forall p ensures p in a[1..] <==> p in x - {a[0]} {
        if p in a[1..] {
          var k :| 1 <= k < |a| && a[k] == p;
          StrLtIrreflexive(p);
        }
        if p in x - {a[0]} {
          var k :| 0 <= k < |a| && a[k] == p;
          assert k != 0;
        }
      }
      forall p ensures p in b[1..] <==> p in x - {a[0]} {
        if p in b[1..] {
          var k :| 1 <= k < |b| && b[k] == p;
          StrLtIrreflexive(p);
        }
        if p in x - {a[0]} {
          var k :| 0 <= k < |b| && b[k] == p;
          assert k != 0;
        }
      }
      SortedListUnique(a[1..], b[1..], x - {a[0]});
      assert a == [a[0]] + a[1..] && b == [b[0]] + b[1..];
    }
  }

  lemma ListedEmpty(s: seq<string>, x: set<string>)
    requires forall p :: p in s <==> p in x
    ensures s == [] <==> x == {}
  {
    if s != [] {
      assert s[0] in x;
    }
  }

  /** `sorted(x)`: the least remaining string, repeatedly. */
  method SortStrings(x: set<string>) returns (s: seq<string>)
    ensures SortedListOf(s, x)
  {
    s := [];
    var rest := x;
    while rest != {}
      invariant rest <= x
      invariant StrSorted(s)
      invariant forall p :: p in s <==> p in x - rest
      invariant forall p, q :: p in s && q in rest ==> StrLt(p, q)
      decreases rest
    {
      StrMinExists(rest);
      var m :| m in rest && forall q :: q in rest ==> StrLe(m, q);
      forall q | q in rest - {m} ensures StrLt(m, q) {
      }
      s := s + [m];
      rest := rest - {m};
    }
  }

  /** `d.get(g, set())`. */
  function SetOf(d: map<string, set<string>>, g: string): set<string>
  {
    if g in d then d[g] else {}
  }

  /** The three dicts `audit` returns. */
  datatype Report = Report(keep: map<string, seq<string>>, remove: map<string, seq<string>>, missing: map<string, seq<string>>)

  /**
    What `audit` promises: every group on disk or in the manifest, and only
    those, with keep = disk ∩ manifest, remove = manifest − disk and
    missing = disk − manifest, each sorted.
  */
  ghost predicate ReportOf(r: Report, disk: map<string, set<string>>, mf: map<string, set<string>>)
  {
    && r.keep.Keys == disk.Keys + mf.Keys
    && r.remove.Keys == disk.Keys + mf.Keys
    && r.missing.Keys == disk.Keys + mf.Keys
    && (forall g :: g in r.keep ==> SortedListOf(r.keep[g], SetOf(disk, g) * SetOf(mf, g)))
    && (forall g :: g in r.remove ==> SortedListOf(r.remove[g], SetOf(mf, g) - SetOf(disk, g)))
    && (forall g :: g in r.missing ==> SortedListOf(r.missing[g], SetOf(disk, g) - SetOf(mf, g)))
  }

  /** The three lists of every group recorded so far are what `audit` promises. */
  ghost predicate GroupsListed(keep: map<string, seq<string>>, remove: map<string, seq<string>>, missing: map<string, seq<string>>,
                               disk: map<string, set<string>>, mf: map<string, set<string>>)
  {
    && remove.Keys == keep.Keys && missing.Keys == keep.Keys
    && (forall g :: g in keep ==> SortedListOf(keep[g], SetOf(disk, g) * SetOf(mf, g)))
    && (forall g :: g in remove ==> SortedListOf(remove[g], SetOf(mf, g) - SetOf(disk, g)))
    && (forall g :: g in missing ==> SortedListOf(missing[g], SetOf(disk, g) - SetOf(mf, g)))
  }

  /** The per-group value expressions of `audit`. */
  method AuditGroup(disk: map<string, set<string>>, mf: map<string, set<string>>, group: string)
    returns (k: seq<string>, rm: seq<string>, ms: seq<string>)
    ensures SortedListOf(k, SetOf(disk, group) * SetOf(mf, group))
    ensures SortedListOf(rm, SetOf(mf, group) - SetOf(disk, group))
    ensures SortedListOf(ms, SetOf(disk, group) - SetOf(mf, group))
  {
    var fsPaths, mfPaths := SetOf(disk, group), SetOf(mf, group);
    k := SortStrings(fsPaths * mfPaths);
    rm := SortStrings(mfPaths - fsPaths);
    ms := SortStrings(fsPaths - mfPaths);
  }

  /** The loop of `audit` over the sorted union of the groups. */
  method AuditGroups(disk: map<string, set<string>>, mf: map<string, set<string>>) returns (r: Report)
    ensures ReportOf(r, disk, mf)
  {
    var allGroups := SortStrings(disk.Keys + mf.Keys);
    var keep, remove, missing := map[], map[], map[];
    var i := 0;
    while i < |allGroups|
      invariant 0 <= i <= |allGroups|
      invariant forall g :: g in keep <==> g in allGroups[..i]
      invariant GroupsListed(keep, remove, missing, disk, mf)
    {
      var group := allGroups[i];
      var k, rm, ms := AuditGroup(disk, mf, group);
      keep, remove, missing := keep[group := k], remove[group := rm], missing[group := ms];
      PrefixInit(allGroups, i);
      i := i + 1;
    }
    PrefixAll(allGroups);
    r := Report(keep, remove, missing);
  }

  /** `audit(manifest_path, schemas_root)`, on the parsed manifest and the listing of the schemas root. */
  method Audit(manifest: Value, projectRoot: string, schemasRoot: string, rootEntries: seq<RootEntry>)
    returns (r: Result<Report, AuditError>)
    requires LoadManifest(manifest).Ok? ==> SchemasReadable(LoadManifest(manifest).value)
    ensures r.Err? <==> LoadManifest(manifest).Err?
    ensures r.Ok? ==> ReportOf(r.value, DiskBuckets(schemasRoot, rootEntries),
                               ManifestPaths(projectRoot, LoadManifest(manifest).value.members))
  {
    var fs := FindAvscFiles(schemasRoot, rootEntries);
    var loaded := LoadManifest(manifest);
    if loaded.Err? {
      return Err(loaded.error);
    }
    var mf := ManifestEntriesToPaths(loaded.value, projectRoot);
    var report := AuditGroups(fs, mf);
    r := Ok(report);
  }

  // ---------------------------------------------------------------------------
  // Properties of the report
  // ---------------------------------------------------------------------------

  /**
    The three lists of a group split its paths: they are pairwise disjoint,
    keep ∪ missing is the disk set and keep ∪ remove is the manifest set.
  */
  lemma ReportPartitions(r: Report, disk: map<string, set<string>>, mf: map<string, set<string>>, g: string, p: string)
    requires ReportOf(r, disk, mf) && g in r.keep
    ensures !(p in r.keep[g] && p in r.remove[g]) && !(p in r.keep[g] && p in r.missing[g]) && !(p in r.remove[g] && p in r.missing[g])
    ensures p in SetOf(disk, g) <==> p in r.keep[g] || p in r.missing[g]
    ensures p in SetOf(mf, g) <==> p in r.keep[g] || p in r.remove[g]
  {
    assert g in r.remove && g in r.missing;
  }

  /** The audited groups are exactly the disk groups and the manifest groups. */
  lemma AuditedGroups(r: Report, disk: map<string, set<string>>, mf: map<string, set<string>>, g: string)
    requires ReportOf(r, disk, mf)
    ensures g in r.keep <==> g in disk || g in mf
  {
  }

  /** The exit decision of `main`: 1 when some group has something to remove or something missing. */
  function ExitStatus(r: Report): (code: int)
    ensures code == 0 || code == 1
  {
    if (exists g :: g in r.remove && r.remove[g] != []) || (exists g :: g in r.missing && r.missing[g] != []) then 1 else 0
  }

  /** The run fails exactly when the disk set and the manifest set of some group differ. */
  lemma ExitStatusIff(r: Report, disk: map<string, set<string>>, mf: map<string, set<string>>)
    requires ReportOf(r, disk, mf)
    ensures ExitStatus(r) == 1 <==> exists g :: SetOf(disk, g) != SetOf(mf, g)
  {
    if exists g :: SetOf(disk, g) != SetOf(mf, g) {
      var g :| SetOf(disk, g) != SetOf(mf, g);
      var p :| (p in SetOf(disk, g) && p !in SetOf(mf, g)) || (p !in SetOf(disk, g) && p in SetOf(mf, g));
      assert g in disk || g in mf;
      if p in SetOf(disk, g) {
        assert p in r.missing[g];
      } else {
        assert p in r.remove[g];
      }
    }
    if ExitStatus(r) == 1 {
      if exists g :: g in r.remove && r.remove[g] != [] {
        var g :| g in r.remove && r.remove[g] != [];
        assert r.remove[g][0] in SetOf(mf, g) - SetOf(disk, g);
      } else {
        var g :| g in r.missing && r.missing[g] != [];
        assert r.missing[g][0] in SetOf(disk, g) - SetOf(mf, g);
      }
    }
  }

  lemma ExampleDisk()
    ensures DiskBuckets("/r/schemas", [GroupDir("a", ["X.avsc", "Y.avsc"])]) ==
      map["a" := {"/r/schemas/a/X.avsc", "/r/schemas/a/Y.avsc"}]
  {
    var avsc := ["X.avsc", "Y.avsc"];
    assert avsc[..1] == ["X.avsc"] && avsc[..1][..0] == [];
    assert Join("/r/schemas", "a") == "/r/schemas/a";
    assert Join("/r/schemas/a", "X.avsc") == "/r/schemas/a/X.avsc";
    assert Join("/r/schemas/a", "Y.avsc") == "/r/schemas/a/Y.avsc";
    assert GroupFiles("/r/schemas", "a", avsc[..1]) == {"/r/schemas/a/X.avsc"};
    assert GroupFiles("/r/schemas", "a", avsc) == {"/r/schemas/a/X.avsc", "/r/schemas/a/Y.avsc"};
    assert [GroupDir("a", avsc)][..0] == [];
  }

  lemma ExampleManifest()
    ensures ManifestPaths("/r", [Member("a", JArr([JObj([Member("file", JStr("schemas/a/X.avsc")), Member("table_name", JStr("x"))])]))]) ==
      map["a" := {"/r/schemas/a/X.avsc"}]
  {
    var e := JObj([Member("file", JStr("schemas/a/X.avsc")), Member("table_name", JStr("x"))]);
    assert Get(e, "file") == JStr("schemas/a/X.avsc");
    assert Join("/r", "schemas/a/X.avsc") == "/r/schemas/a/X.avsc";
    assert [e][..0] == [];
    assert EntryPaths("/r", [e]) == {"/r/schemas/a/X.avsc"};
  }

  /** One group, X in both sets and Y on disk only. */
  lemma ReportOfOneGroup(r: Report, x: string, y: string)
    requires x != y
    requires ReportOf(r, map["a" := {x, y}], map["a" := {x}])
    ensures r.keep == map["a" := [x]] && r.remove == map["a" := []] && r.missing == map["a" := [y]]
  {
    var disk, mf := map["a" := {x, y}], map["a" := {x}];
    assert SetOf(disk, "a") * SetOf(mf, "a") == {x};
    assert SetOf(mf, "a") - SetOf(disk, "a") == {};
    assert SetOf(disk, "a") - SetOf(mf, "a") == {y};
    assert r.keep.Keys == {"a"};
    SortedListUnique(r.keep["a"], [x], {x});
    SortedListUnique(r.remove["a"], [], {});
    SortedListUnique(r.missing["a"], [y], {y});
  }

  /**
    A manifest listing `a/X.avsc` under group `a`, and a disk holding
    `a/X.avsc` and `a/Y.avsc`: X is kept, Y is missing, nothing is removed.
  */
  lemma KeepAndMissingExample(r: Report)
    requires ReportOf(r,
      DiskBuckets("/r/schemas", [GroupDir("a", ["X.avsc", "Y.avsc"])]),
      ManifestPaths("/r", [Member("a", JArr([JObj([Member("file", JStr("schemas/a/X.avsc")), Member("table_name", JStr("x"))])]))]))
    ensures r.keep == map["a" := ["/r/schemas/a/X.avsc"]]
    ensures r.remove == map["a" := []]
    ensures r.missing == map["a" := ["/r/schemas/a/Y.avsc"]]
  {
    ExampleDisk();
    ExampleManifest();
    ReportOfOneGroup(r, "/r/schemas/a/X.avsc", "/r/schemas/a/Y.avsc");
  }
}
