// The version stamper of tools/set_avro_versions.py: every schema file gets
// a top-level "version" when it has none, taken from the manifest entry of
// that file when there is one, else from the default version.
//
// Path objects are path strings here: `Path(p).as_posix()`, `resolve()` and
// `relative_to(Path("."))` of a relative path leave the string as it is.

module SetAvroVersions {
  import opened JsonValue
  import NormalizeManifest

  // ---------------------------------------------------------------------------
  // load_manifest_versions
  // ---------------------------------------------------------------------------

  /** An entry whose file is a string and whose version is a str, an int (bools included) or a float. */
  predicate Recorded(entry: Value)
  {
    entry.JObj? && Get(entry, "file").JStr? && IsScalar(Get(entry, "version"))
  }

  /** What one recorded entry contributes: its path and its stringified version. */
  datatype Pair = Pair(file: string, version: string)

  function PairOf(entry: Value): Pair
    requires Recorded(entry)
  {
    Pair(Get(entry, "file").s, PyStr(Get(entry, "version")))
  }

  /** The pairs of one group's entries, in order; other entries are skipped. */
  function EntryPairs(es: seq<Value>): seq<Pair>
  {
    if es == [] then []
    else
      var e := es[|es| - 1];
      EntryPairs(es[..|es| - 1]) + (if Recorded(e) then [PairOf(e)] else [])
  }

  /** The pairs of every list-valued group, group by group; other groups are skipped. */
  function GroupPairs(ms: seq<Member>): seq<Pair>
  {
    if ms == [] then []
    else
      var g := ms[|ms| - 1].value;
      GroupPairs(ms[..|ms| - 1]) + (if g.JArr? then EntryPairs(g.items) else [])
  }

  /** The dict the pairs are stored into, one `versions[norm] = str(ver)` at a time. */
  function MapOf(ps: seq<Pair>): map<string, string>
  {
    if ps == [] then map[]
    else MapOf(ps[..|ps| - 1])[ps[|ps| - 1].file := ps[|ps| - 1].version]
  }

  /**
    `load_manifest_versions` on the file system: nothing without a manifest
    path or with one that does not exist; nothing when reading fails (a parse
    failure, a document that is not a dict, a `schemas` that is not a dict:
    each raises before the first entry is stored and is caught).
  */
  function ManifestVersions(manifestPath: Option<string>, fs: FileSystem): map<string, string>
  {
    if manifestPath.None? || manifestPath.value !in fs then map[]
    else
      match fs[manifestPath.value]
      case Unparsable => map[]
      case Json(manifest) =>
        if !manifest.JObj? then map[]
        else
          var schemas := GetOr(manifest, "schemas", JObj([]));
          if !schemas.JObj? then map[] else MapOf(GroupPairs(schemas.members))
  }

  /** Every pair comes from a recorded entry, and every recorded entry gives a pair. */
  lemma {:induction false} EntryPairsIff(es: seq<Value>, p: Pair)
    ensures p in EntryPairs(es) <==> exists j :: 0 <= j < |es| && Recorded(es[j]) && PairOf(es[j]) == p
  {
    if es != [] {
      var init := es[..|es| - 1];
      EntryPairsIff(init, p);
      if exists j :: 0 <= j < |init| && Recorded(init[j]) && PairOf(init[j]) == p {
        var j :| 0 <= j < |init| && Recorded(init[j]) && PairOf(init[j]) == p;
        PrefixIndex(es, |es| - 1, j);
      }
      if exists j :: 0 <= j < |es| && Recorded(es[j]) && PairOf(es[j]) == p {
        var j :| 0 <= j < |es| && Recorded(es[j]) && PairOf(es[j]) == p;
        if j < |es| - 1 {
          PrefixIndex(es, |es| - 1, j);
        }
      }
    }
  }

  /** A path is a key exactly when some pair names it. */
  lemma {:induction false} MapOfKeys(ps: seq<Pair>, k: string)
    ensures k in MapOf(ps) <==> exists i :: 0 <= i < |ps| && ps[i].file == k
  {
    if ps != [] {
      var init := ps[..|ps| - 1];
      MapOfKeys(init, k);
      if exists i :: 0 <= i < |init| && init[i].file == k {
        var i :| 0 <= i < |init| && init[i].file == k;
        PrefixIndex(ps, |ps| - 1, i);
      }
      if exists i :: 0 <= i < |ps| && ps[i].file == k {
        var i :| 0 <= i < |ps| && ps[i].file == k;
        if i < |ps| - 1 {
          PrefixIndex(ps, |ps| - 1, i);
        }
      }
    }
  }

  /** Later entries overwrite earlier ones: a path maps to the version of the last pair naming it. */
  lemma {:induction false} MapOfLastWins(ps: seq<Pair>, i: int)
    requires 0 <= i < |ps| && forall j :: i < j < |ps| ==> ps[j].file != ps[i].file
    ensures ps[i].file in MapOf(ps) && MapOf(ps)[ps[i].file] == ps[i].version
  {
    if i < |ps| - 1 {
      var init := ps[..|ps| - 1];
      PrefixIndex(ps, |ps| - 1, i);
      forall j | i < j < |init| ensures init[j].file != init[i].file {
        PrefixIndex(ps, |ps| - 1, j);
      }
      MapOfLastWins(init, i);
    }
  }

  /** An absent manifest path, or one that does not exist, gives no versions. */
  lemma NoManifestNoVersions(manifestPath: Option<string>, fs: FileSystem)
    requires manifestPath.None? || manifestPath.value !in fs
    ensures ManifestVersions(manifestPath, fs) == map[]
  {
  }

  /** `load_manifest_versions`: the loop over the groups and, inside it, over one group's entries. */
  method LoadManifestVersions(manifestPath: Option<string>, fs: FileSystem) returns (versions: map<string, string>)
    ensures versions == ManifestVersions(manifestPath, fs)
  {
    versions := map[];
    if manifestPath.None? || manifestPath.value !in fs {
      return;
    }
    var content := fs[manifestPath.value];
    if content.Unparsable? || !content.value.JObj? {
      return;
    }
    var schemas := GetOr(content.value, "schemas", JObj([]));
    if !schemas.JObj? {
      return;
    }
    var ms := schemas.members;
    var i := 0;
    while i < |ms|
      invariant 0 <= i <= |ms|
      invariant versions == MapOf(GroupPairs(ms[..i]))
    {
      PrefixInit(ms, i);
      var entries := ms[i].value;
      if entries.JArr? {
        versions := LoadGroup(GroupPairs(ms[..i]), entries.items, versions);
        assert GroupPairs(ms[..i + 1]) == GroupPairs(ms[..i]) + EntryPairs(entries.items);
      } else {
        assert GroupPairs(ms[..i + 1]) == GroupPairs(ms[..i]) + [];
        assert GroupPairs(ms[..i + 1]) == GroupPairs(ms[..i]);
      }
      i := i + 1;
    }
    PrefixAll(ms);
  }

  /** The inner loop of `load_manifest_versions`, over one group's entries. */
  method LoadGroup(ghost before: seq<Pair>, es: seq<Value>, versions: map<string, string>) returns (out: map<string, string>)
    requires versions == MapOf(before)
    ensures out == MapOf(before + EntryPairs(es))
  {
    out := versions;
    var j := 0;
    assert before + EntryPairs(es[..0]) == before;
    while j < |es|
      invariant 0 <= j <= |es|
      invariant out == MapOf(before + EntryPairs(es[..j]))
    {
      EntryStep(before, es, j);
      var entry := es[j];
      if Recorded(entry) {
        var fpath, ver := Get(entry, "file"), Get(entry, "version");
        out := out[fpath.s := PyStr(ver)];
      }
      j := j + 1;
    }
    PrefixAll(es);
  }

  /** One more entry stores its pair when it is recorded, and nothing otherwise. */
  lemma EntryStep(before: seq<Pair>, es: seq<Value>, j: int)
    requires 0 <= j < |es|
    ensures Recorded(es[j]) ==> (MapOf(before + EntryPairs(es[..j + 1])) ==
      MapOf(before + EntryPairs(es[..j]))[PairOf(es[j]).file := PairOf(es[j]).version])
    ensures !Recorded(es[j]) ==> MapOf(before + EntryPairs(es[..j + 1])) == MapOf(before + EntryPairs(es[..j]))
  {
    PrefixInit(es, j);
    var ps := before + EntryPairs(es[..j]);
    if Recorded(es[j]) {
      assert before + EntryPairs(es[..j + 1]) == ps + [PairOf(es[j])];
      assert (ps + [PairOf(es[j])])[..|ps|] == ps;
    } else {
      assert before + EntryPairs(es[..j + 1]) == ps;
    }
  }

  // ---------------------------------------------------------------------------
  // determine_version_for_file
  // ---------------------------------------------------------------------------

  /**
    The candidate set of `determine_version_for_file`: the path itself (both
    as given and relative to the working directory), "schemas/" and its file
    name when the path holds no "schemas/", and the path rebuilt under
    "schemas/" when it starts with it.
  */
  function Candidates(path: string): set<string>
  {
    var relPosix := path;
    var relFromCwd := path;
    { relPosix,
      relFromCwd,
      if !Contains(relFromCwd, "schemas/") then "schemas/" + NormalizeManifest.Basename(path) else relFromCwd,
      if StartsWith(relFromCwd, "schemas/") then "schemas/" + relFromCwd[|"schemas/"|..] else relFromCwd }
  }

  /** The candidates are the path, and the file name under "schemas/" when the path holds no "schemas/". */
  lemma CandidatesShape(path: string)
    ensures path in Candidates(path)
    ensures Candidates(path) ==
      {path} + (if !Contains(path, "schemas/") then {"schemas/" + NormalizeManifest.Basename(path)} else {})
  {
    var third := if !Contains(path, "schemas/") then "schemas/" + NormalizeManifest.Basename(path) else path;
    RebuiltUnderSchemas(path);
    assert Candidates(path) == {path, third};
  }

  /** Rebuilding a path that starts with "schemas/" under "schemas/" gives it back. */
  lemma RebuiltUnderSchemas(path: string)
    ensures (if StartsWith(path, "schemas/") then "schemas/" + path[|"schemas/"|..] else path) == path
  {
    if StartsWith(path, "schemas/") {
      assert path[..|"schemas/"|] + path[|"schemas/"|..] == path;
    }
  }

  /** The version `determine_version_for_file` may return: that of some candidate key, else the default. */
  ghost predicate Resolves(path: string, mv: map<string, string>, default: string, v: string)
  {
    && ((exists k :: k in Candidates(path) && k in mv) ==> exists k :: k in Candidates(path) && k in mv && v == mv[k])
    && ((forall k :: k in Candidates(path) ==> k !in mv) ==> v == default)
  }

  /**
    `determine_version_for_file`: the candidates are tried in the iteration
    order of a Python set, which is left open here.
  */
  method DetermineVersionForFile(path: string, mv: map<string, string>, default: string) returns (v: string)
    ensures (exists k :: k in Candidates(path) && k in mv) ==> exists k :: k in Candidates(path) && k in mv && v == mv[k]
    ensures (forall k :: k in Candidates(path) ==> k !in mv) ==> v == default
  {
    var candidates := Candidates(path);
    var rest := candidates;
    while rest != {}
      invariant rest <= candidates
      invariant forall k :: k in candidates && k !in rest ==> k !in mv
      decreases rest
    {
      var key :| key in rest;
      if key in mv {
        return mv[key];
      }
      rest := rest - {key};
    }
    return default;
  }

  /** Whichever candidate matches, a stamped version is never empty when no version involved is. */
  lemma ResolvesNonEmpty(path: string, mv: map<string, string>, default: string, v: string)
    requires Resolves(path, mv, default, v)
    requires default != "" && forall k :: k in mv ==> mv[k] != ""
    ensures v != ""
  {
    if exists k :: k in Candidates(path) && k in mv {
      var k :| k in Candidates(path) && k in mv && v == mv[k];
    }
  }

  // ---------------------------------------------------------------------------
  // process_avsc_file
  // ---------------------------------------------------------------------------

  /** `isinstance(data, dict)` and not `"version" in data and data["version"] not in (None, "")`. */
  predicate NeedsVersion(data: Value)
  {
    data.JObj? && !(Has(data, "version") && Get(data, "version") != JNull && Get(data, "version") != JStr(""))
  }

  /** A file `process_avsc_file` would stamp: it reads, parses, and needs a version. */
  predicate Stampable(fs: FileSystem, path: string)
  {
    path in fs && fs[path].Json? && NeedsVersion(fs[path].value)
  }

  /** A dict stamped with a non-empty version no longer needs one; nothing but "version" changes. */
  lemma StampSettles(data: Value, v: string)
    requires data.JObj? && v != ""
    ensures !NeedsVersion(Set(data, "version", JStr(v)))
    ensures forall k, d :: k != "version" ==> GetOr(Set(data, "version", JStr(v)), k, d) == GetOr(data, k, d)
  {
  }

  /**
    `process_avsc_file`: a file that does not read or parse, a top level that
    is not a dict, or a version already set leaves the file alone; a dry run
    changes nothing either; otherwise only "version" is set, to the resolved
    version, and the file is rewritten.
  */
  method ProcessAvscFile(fs: FileSystem, path: string, mv: map<string, string>, default: string, dryRun: bool)
    returns (fs': FileSystem, modified: bool, ghost version: string)
    ensures modified <==> !dryRun && Stampable(fs, path)
    ensures !modified ==> fs' == fs
    ensures modified ==> Resolves(path, mv, default, version) && fs' == fs[path := Json(Set(fs[path].value, "version", JStr(version)))]
  {
    version := "";
    fs' := fs;
    if path !in fs || fs[path].Unparsable? {
      return fs, false, "";
    }
    var data := fs[path].value;
    if !data.JObj? {
      return fs, false, "";
    }
    if Has(data, "version") && Get(data, "version") != JNull && Get(data, "version") != JStr("") {
      return fs, false, "";
    }
    var versionVal := DetermineVersionForFile(path, mv, default);
    data := Set(data, "version", JStr(versionVal));
    if dryRun {
      return fs, false, "";
    }
    fs' := fs[path := Json(data)];
    modified, version := true, versionVal;
  }

  /** No file of the list still needs a version. */
  ghost predicate Settled(fs: FileSystem, done: seq<string>)
  {
    forall p :: p in done ==> !Stampable(fs, p)
  }

  /** Stamping a dict with a non-empty version keeps the files already done settled and settles it. */
  lemma SettledStep(fs: FileSystem, done: seq<string>, path: string, v: string)
    requires Settled(fs, done) && Stampable(fs, path) && v != ""
    ensures Settled(fs[path := Json(Set(fs[path].value, "version", JStr(v)))], done + [path])
  {
    StampSettles(fs[path].value, v);
  }

  /** The file at `path` in `fs'` is the one in `fs` with "version" set to a version `path` resolves to. */
  ghost predicate StampedFrom(fs: FileSystem, fs': FileSystem, path: string, mv: map<string, string>, default: string)
    requires path in fs && fs[path].Json? && fs[path].value.JObj? && path in fs'
  {
    exists v :: Resolves(path, mv, default, v) && fs'[path] == Json(Set(fs[path].value, "version", JStr(v)))
  }

  /** The files of the list needing a version in `fs` are stamped in `fs'`. */
  ghost predicate AllStamped(fs: FileSystem, fs': FileSystem, done: seq<string>, mv: map<string, string>, default: string)
    requires fs'.Keys == fs.Keys
  {
    forall p :: p in done && Stampable(fs, p) ==> StampedFrom(fs, fs', p, mv, default)
  }

  /** Files that did not need a version in `fs` are as they were. */
  ghost predicate KeepsSettled(fs: FileSystem, fs': FileSystem)
    requires fs'.Keys == fs.Keys
  {
    forall p :: p in fs && !Stampable(fs, p) ==> fs'[p] == fs[p]
  }

  /** Files outside `done` are as they were. */
  ghost predicate Untouched(fs: FileSystem, fs': FileSystem, done: seq<string>)
    requires fs'.Keys == fs.Keys
  {
    forall p :: p in fs && p !in done ==> fs'[p] == fs[p]
  }

  /** No path occurs twice in the list. */
  predicate Distinct(files: seq<string>)
  {
    forall a, b :: 0 <= a < b < |files| ==> files[a] != files[b]
  }

  /** The listed files that need a version. */
  function StampableIn(fs: FileSystem, files: seq<string>): set<string>
  {
    set p | p in files && Stampable(fs, p)
  }

  /** Stamping a stamped file again keeps it stamped from the original. */
  lemma RestampedFrom(fs: FileSystem, before: FileSystem, path: string, mv: map<string, string>, default: string, w: string)
    requires path in fs && fs[path].Json? && fs[path].value.JObj? && path in before
    requires StampedFrom(fs, before, path, mv, default) && Resolves(path, mv, default, w)
    ensures StampedFrom(fs, before[path := Json(Set(before[path].value, "version", JStr(w)))], path, mv, default)
  {
    var v :| Resolves(path, mv, default, v) && before[path] == Json(Set(fs[path].value, "version", JStr(v)));
    SetTwice(fs[path].value, "version", JStr(v), JStr(w));
  }

  /** One step of the loop keeps the files that needed no version as they were. */
  lemma KeepsSettledStep(fs: FileSystem, before: FileSystem, after: FileSystem, path: string,
                         mv: map<string, string>, default: string, changed: bool)
    requires before.Keys == fs.Keys && after.Keys == fs.Keys
    requires KeepsSettled(fs, before)
    requires changed <==> Stampable(before, path)
    requires !changed ==> after == before
    requires changed ==> exists v :: (Resolves(path, mv, default, v) &&
      after == before[path := Json(Set(before[path].value, "version", JStr(v)))])
    ensures KeepsSettled(fs, after)
    ensures changed ==> Stampable(fs, path)
  {
    if changed {
      assert Stampable(fs, path);
    }
  }

  /** One step of the loop keeps the listed files done so far stamped, and adds the new one. */
  lemma StampStep(fs: FileSystem, before: FileSystem, after: FileSystem, done: seq<string>, path: string,
                  mv: map<string, string>, default: string, changed: bool)
    requires before.Keys == fs.Keys && after.Keys == fs.Keys
    requires AllStamped(fs, before, done, mv, default)
    requires Untouched(fs, before, done)
    requires changed ==> Stampable(fs, path)
    requires changed <==> Stampable(before, path)
    requires !changed ==> after == before
    requires changed ==> exists v :: (Resolves(path, mv, default, v) &&
      after == before[path := Json(Set(before[path].value, "version", JStr(v)))])
    ensures AllStamped(fs, after, done + [path], mv, default)
  {
    if changed {
      var w :| Resolves(path, mv, default, w) && after == before[path := Json(Set(before[path].value, "version", JStr(w)))];
      if path in done {
        RestampedFrom(fs, before, path, mv, default, w);
      } else {
        assert StampedFrom(fs, after, path, mv, default);
      }
      forall p | p in done + [path] && Stampable(fs, p) ensures StampedFrom(fs, after, p, mv, default) {
        if p != path {
          assert after[p] == before[p];
        }
      }
    } else {
      forall p | p in done + [path] && Stampable(fs, p) ensures StampedFrom(fs, after, p, mv, default) {
        if p == path && p !in done {
          assert false;
        }
      }
    }
  }

  /** `StampStep` for the `i`-th file of the list. */
  lemma StampStepAt(fs: FileSystem, before: FileSystem, after: FileSystem, files: seq<string>, i: int,
                    mv: map<string, string>, default: string, changed: bool)
    requires 0 <= i < |files|
    requires before.Keys == fs.Keys && after.Keys == fs.Keys
    requires KeepsSettled(fs, before) && AllStamped(fs, before, files[..i], mv, default)
    requires Untouched(fs, before, files[..i])
    requires changed <==> Stampable(before, files[i])
    requires !changed ==> after == before
    requires changed ==> exists v :: (Resolves(files[i], mv, default, v) &&
      after == before[files[i] := Json(Set(before[files[i]].value, "version", JStr(v)))])
    ensures KeepsSettled(fs, after) && AllStamped(fs, after, files[..i + 1], mv, default)
  {
    assert files[..i + 1] == files[..i] + [files[i]];
    KeepsSettledStep(fs, before, after, files[i], mv, default, changed);
    StampStep(fs, before, after, files[..i], files[i], mv, default, changed);
  }

  /** One more distinct file adds itself to the stampable set exactly when it needs a version. */
  lemma StampableInStep(fs: FileSystem, files: seq<string>, i: int)
    requires Distinct(files) && 0 <= i < |files|
    ensures files[i] !in files[..i]
    ensures |StampableIn(fs, files[..i + 1])| == |StampableIn(fs, files[..i])| + (if Stampable(fs, files[i]) then 1 else 0)
  {
    assert files[..i + 1] == files[..i] + [files[i]];
    if Stampable(fs, files[i]) {
      assert StampableIn(fs, files[..i + 1]) == StampableIn(fs, files[..i]) + {files[i]};
    } else {
      assert StampableIn(fs, files[..i + 1]) == StampableIn(fs, files[..i]);
    }
  }

  /** No empty version can be chosen, so a stamped file is settled. */
  predicate Settles(mv: map<string, string>, default: string, dryRun: bool)
  {
    !dryRun && default != "" && (forall k :: k in mv ==> mv[k] != "")
  }

  /** The step touches at most the file it visits. */
  lemma FrameStep(fs: FileSystem, before: FileSystem, after: FileSystem, files: seq<string>, i: int, changed: bool, v: string)
    requires 0 <= i < |files| && before.Keys == fs.Keys
    requires Untouched(fs, before, files[..i])
    requires changed ==> (files[i] in before && before[files[i]].Json? && before[files[i]].value.JObj? &&
      after == before[files[i] := Json(Set(before[files[i]].value, "version", JStr(v)))])
    requires !changed ==> after == before
    ensures after.Keys == fs.Keys
    ensures Untouched(fs, after, files[..i + 1])
  {
    assert files[..i + 1] == files[..i] + [files[i]];
  }

  /** How many entries of `files` need a version in `fs`, counting a repeated path each time. */
  ghost function CountStampable(fs: FileSystem, files: seq<string>): nat
  {
    if files == [] then 0
    else CountStampable(fs, files[..|files| - 1]) + (if Stampable(fs, files[|files| - 1]) then 1 else 0)
  }

  /** With no path listed twice, the count is the size of the set of listed files needing a version. */
  lemma {:induction false} CountIsCard(fs: FileSystem, files: seq<string>)
    requires Distinct(files)
    ensures CountStampable(fs, files) == |StampableIn(fs, files)|
  {
    if files != [] {
      var i := |files| - 1;
      assert Distinct(files[..i]);
      CountIsCard(fs, files[..i]);
      StampableInStep(fs, files, i);
      assert files[..i + 1] == files;
    }
  }

  /** The step counts the visited file exactly when it needed a version. */
  lemma CountStep(fs: FileSystem, before: FileSystem, files: seq<string>, i: int, modified: int, changed: bool)
    requires 0 <= i < |files| && before.Keys == fs.Keys
    requires Untouched(fs, before, files[..i])
    requires changed <==> Stampable(before, files[i])
    requires Distinct(files) ==> modified == CountStampable(fs, files[..i])
    ensures Distinct(files) ==> modified + (if changed then 1 else 0) == CountStampable(fs, files[..i + 1])
  {
    assert files[..i + 1][..i] == files[..i];
    if Distinct(files) {
      assert files[i] !in files[..i];
      assert Stampable(before, files[i]) == Stampable(fs, files[i]);
    }
  }

  /** The dry-run, nothing-to-do and settling parts of the loop state survive the step. */
  lemma SettledSteps(fs: FileSystem, before: FileSystem, after: FileSystem, files: seq<string>, i: int,
                     mv: map<string, string>, default: string, dryRun: bool, changed: bool, v: string)
    requires 0 <= i < |files|
    requires changed <==> !dryRun && Stampable(before, files[i])
    requires !changed ==> after == before
    requires changed ==> (Resolves(files[i], mv, default, v) &&
      after == before[files[i] := Json(Set(before[files[i]].value, "version", JStr(v)))])
    requires before.Keys == fs.Keys && KeepsSettled(fs, before)
    requires Settles(mv, default, dryRun) ==> Settled(before, files[..i])
    ensures Settled(fs, files) ==> !changed
    ensures Settles(mv, default, dryRun) ==> Settled(after, files[..i + 1])
  {
    var avsc := files[i];
    assert files[..i + 1] == files[..i] + [avsc];
    if Settled(fs, files) {
      assert !Stampable(fs, avsc);
      assert !Stampable(before, avsc);
    }
    if Settles(mv, default, dryRun) {
      if changed {
        ResolvesNonEmpty(avsc, mv, default, v);
        SettledStep(before, files[..i], avsc, v);
      } else {
        assert Settled(after, files[..i] + [avsc]);
      }
    }
  }

  /** One pass of the loop of `main` keeps its invariant, one file further on. */
  lemma VisitStep(fs: FileSystem, before: FileSystem, after: FileSystem, files: seq<string>, i: int,
                  modified: int, modified': int, mv: map<string, string>, default: string, dryRun: bool,
                  changed: bool, v: string)
    requires 0 <= i < |files| && modified <= i
    requires before.Keys == fs.Keys
    requires Untouched(fs, before, files[..i])
    requires KeepsSettled(fs, before)
    requires !dryRun ==> AllStamped(fs, before, files[..i], mv, default)
    requires !dryRun && Distinct(files) ==> modified == CountStampable(fs, files[..i])
    requires dryRun ==> Untouched(fs, before, []) && modified == 0
    requires Settled(fs, files) ==> modified == 0
    requires Settles(mv, default, dryRun) ==> Settled(before, files[..i])
    requires changed <==> !dryRun && Stampable(before, files[i])
    requires !changed ==> after == before
    requires changed ==> (Resolves(files[i], mv, default, v) &&
      after == before[files[i] := Json(Set(before[files[i]].value, "version", JStr(v)))])
    requires modified' == modified + (if changed then 1 else 0)
    ensures modified' <= i + 1
    ensures after.Keys == fs.Keys
    ensures Untouched(fs, after, files[..i + 1])
    ensures KeepsSettled(fs, after)
    ensures !dryRun ==> AllStamped(fs, after, files[..i + 1], mv, default)
    ensures !dryRun && Distinct(files) ==> modified' == CountStampable(fs, files[..i + 1])
    ensures dryRun ==> Untouched(fs, after, []) && modified' == 0
    ensures Settled(fs, files) ==> modified' == 0
    ensures Settles(mv, default, dryRun) ==> Settled(after, files[..i + 1])
  {
    FrameStep(fs, before, after, files, i, changed, v);
    if !dryRun {
      StampStepAt(fs, before, after, files, i, mv, default, changed);
      CountStep(fs, before, files, i, modified, changed);
    }
    SettledSteps(fs, before, after, files, i, mv, default, dryRun, changed, v);
  }

  /** The body of the loop of `main`: `process_avsc_file` on the `i`-th file, counted when it modified the file. */
  method Visit(ghost fs: FileSystem, before: FileSystem, files: seq<string>, i: nat, modified: nat,
               mv: map<string, string>, default: string, dryRun: bool)
    returns (after: FileSystem, modified': nat)
    requires i < |files| && modified <= i
    requires before.Keys == fs.Keys
    requires Untouched(fs, before, files[..i])
    requires KeepsSettled(fs, before)
    requires !dryRun ==> AllStamped(fs, before, files[..i], mv, default)
    requires !dryRun && Distinct(files) ==> modified == CountStampable(fs, files[..i])
    requires dryRun ==> Untouched(fs, before, []) && modified == 0
    requires Settled(fs, files) ==> modified == 0
    requires Settles(mv, default, dryRun) ==> Settled(before, files[..i])
    ensures modified' <= i + 1
    ensures after.Keys == fs.Keys
    ensures Untouched(fs, after, files[..i + 1])
    ensures KeepsSettled(fs, after)
    ensures !dryRun ==> AllStamped(fs, after, files[..i + 1], mv, default)
    ensures !dryRun && Distinct(files) ==> modified' == CountStampable(fs, files[..i + 1])
    ensures dryRun ==> Untouched(fs, after, []) && modified' == 0
    ensures Settled(fs, files) ==> modified' == 0
    ensures Settles(mv, default, dryRun) ==> Settled(after, files[..i + 1])
  {
    var changed;
    ghost var v;
    after, changed, v := ProcessAvscFile(before, files[i], mv, default, dryRun);
    modified' := if changed then modified + 1 else modified;
    VisitStep(fs, before, after, files, i, modified, modified', mv, default, dryRun, changed, v);
  }

  /**
    The loop of `main` over the `*.avsc` files: how many were scanned and how
    many modified. A listed file that needs a version is stamped with one it
    resolves to (outside a dry run); every other file is left as it was. With
    no path listed twice, the modified count is the number of listed files
    that need a version. After a run that is not a dry run, with no empty
    version in play, no listed file needs a version any more; and a run over
    files that need none modifies nothing, so a second run reports zero.
  */
  method ProcessFiles(fs: FileSystem, files: seq<string>, mv: map<string, string>, default: string, dryRun: bool)
    returns (fs': FileSystem, scanned: nat, modified: nat)
    ensures scanned == |files| && modified <= scanned
    ensures fs'.Keys == fs.Keys
    ensures forall p :: p in fs && p !in files ==> fs'[p] == fs[p]
    ensures KeepsSettled(fs, fs')
    ensures !dryRun ==> AllStamped(fs, fs', files, mv, default)
    ensures !dryRun && Distinct(files) ==> modified == |StampableIn(fs, files)|
    ensures dryRun ==> fs' == fs && modified == 0
    ensures (forall p :: p in files ==> !Stampable(fs, p)) ==> fs' == fs && modified == 0
    ensures !dryRun && default != "" && (forall k :: k in mv ==> mv[k] != "") ==>
      forall p :: p in files ==> !Stampable(fs', p)
  {
    fs', scanned, modified := fs, 0, 0;
    var i := 0;
    assert files[..0] == [];
    while i < |files|
      invariant 0 <= i <= |files| && scanned == i && modified <= i
      invariant fs'.Keys == fs.Keys
      invariant Untouched(fs, fs', files[..i])
      invariant KeepsSettled(fs, fs')
      invariant !dryRun ==> AllStamped(fs, fs', files[..i], mv, default)
      invariant !dryRun && Distinct(files) ==> modified == CountStampable(fs, files[..i])
      invariant dryRun ==> Untouched(fs, fs', []) && modified == 0
      invariant Settled(fs, files) ==> modified == 0
      invariant Settles(mv, default, dryRun) ==> Settled(fs', files[..i])
    {
      fs', modified := Visit(fs, fs', files, i, modified, mv, default, dryRun);
      scanned := scanned + 1;
      i := i + 1;
    }
    assert files[..|files|] == files;
    if !dryRun && Distinct(files) {
      CountIsCard(fs, files);
    }
    if dryRun {
      UntouchedAll(fs, fs', []);
    }
    if Settled(fs, files) {
      UntouchedAll(fs, fs', files);
    }
  }

  /** Keys kept, files outside `done` untouched and those in `done` settled: nothing changed. */
  lemma UntouchedAll(fs: FileSystem, fs': FileSystem, done: seq<string>)
    requires fs'.Keys == fs.Keys && Untouched(fs, fs', done) && KeepsSettled(fs, fs') && Settled(fs, done)
    ensures fs' == fs
  {
    forall p | p in fs ensures fs'[p] == fs[p] {
      if p in done {
        assert !Stampable(fs, p);
      }
    }
  }
}
