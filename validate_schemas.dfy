// The manifest checker of tools/validate_schemas.py (schemas/tools/validate_schemas.py
// is a byte-for-byte copy): every schema file the manifest lists must exist,
// parse as JSON, and carry the version the manifest states for it.

module ValidateSchemas {
  import opened JsonValue

  // ---------------------------------------------------------------------------
  // Outcomes
  // ---------------------------------------------------------------------------

  /** The two `SchemaValidationError`s `_load_manifest` raises. */
  datatype LoadError = ManifestNotFound | InvalidYaml

  /** One problem line of `validate`; the wording is not modelled, only the kind and its subject. */
  datatype Problem =
    | FileMissing(domain: string, name: Value, path: string)
    | InvalidJson(path: string)
    | VersionMismatch(domain: string, name: Value, declared: Value, embedded: Value)

  // ---------------------------------------------------------------------------
  // _iter_manifest_entries
  // ---------------------------------------------------------------------------

  /** One `(domain, entry)` pair the iterator yields. */
  datatype Located = Located(domain: string, entry: Value)

  /** `manifest.get("schemas", {})`, as its members. */
  function GroupsOf(manifest: Value): seq<Member>
  {
    var s := GetOr(manifest, "schemas", JObj([]));
    if s.JObj? then s.members else []
  }

  /** `for entry in entries`: a list yields its items, a dict its keys, a string its characters. */
  function Iterated(v: Value): seq<Value>
  {
    match v
    case JArr(items) => items
    case JObj(ms) => seq(|ms|, i requires 0 <= i < |ms| => JStr(ms[i].key))
    case JStr(s) => seq(|s|, i requires 0 <= i < |s| => JStr([s[i]]))
    case _ => []
  }

  /** The values a `for` loop accepts; any other raises `TypeError`. */
  predicate Iterable(v: Value)
  {
    v.JArr? || v.JObj? || v.JStr?
  }

  function Locate(domain: string, es: seq<Value>): seq<Located>
  {
    seq(|es|, i requires 0 <= i < |es| => Located(domain, es[i]))
  }

  /** Every pair `_iter_manifest_entries` yields, domain by domain, in manifest order. */
  function ManifestEntries(ms: seq<Member>): seq<Located>
  {
    if ms == [] then []
    else
      var g := ms[|ms| - 1];
      ManifestEntries(ms[..|ms| - 1]) + Locate(g.key, Iterated(g.value))
  }

  // ---------------------------------------------------------------------------
  // _validate_file
  // ---------------------------------------------------------------------------

  /** `REPO_ROOT / entry["file"]`. */
  function AvscPath(root: string, entry: Value): string
    requires entry.JObj? && Get(entry, "file").JStr?
  {
    Join(root, Get(entry, "file").s)
  }

  /** A parsed schema file whose `top` has a `get`: a dict, or a non-empty list whose first item is a dict. */
  predicate TopReadable(v: Value)
  {
    v.JObj? || (v.JArr? && |v.items| > 0 && v.items[0].JObj?)
  }

  /** `schema_json[0] if isinstance(schema_json, list) else schema_json`. */
  function Top(v: Value): Value
    requires TopReadable(v)
  {
    if v.JArr? then v.items[0] else v
  }

  /** The version the file embeds, `top.get("version")`. */
  function Embedded(v: Value): Value
    requires TopReadable(v)
  {
    Get(Top(v), "version")
  }

  /** The file of the entry exists, parses, and embeds the version the entry declares. */
  predicate Passes(root: string, fs: FileSystem, entry: Value)
    requires entry.JObj? && Get(entry, "file").JStr?
  {
    var p := AvscPath(root, entry);
    p in fs && fs[p].Json? && TopReadable(fs[p].value) && PyEq(Embedded(fs[p].value), Get(entry, "version"))
  }

  /**
    An entry `_validate_file` handles without raising: a dict whose `file`
    is a string; `name` present whenever a message names it; a parsed file
    whose `top` is a dict.
  */
  predicate EntryReadable(root: string, fs: FileSystem, entry: Value)
  {
    && entry.JObj? && Get(entry, "file").JStr?
    && var p := AvscPath(root, entry);
       && (p !in fs ==> Has(entry, "name"))
       && (p in fs && fs[p].Json? ==>
             TopReadable(fs[p].value) &&
             (!PyEq(Embedded(fs[p].value), Get(entry, "version")) ==> Has(entry, "name")))
  }

  /** What `_validate_file` appends for one entry: nothing when it passes, otherwise one problem. */
  function EntryProblem(root: string, fs: FileSystem, l: Located): (r: seq<Problem>)
    requires EntryReadable(root, fs, l.entry)
    ensures |r| <= 1
    ensures r == [] <==> Passes(root, fs, l.entry)
  {
    var e := l.entry;
    var p := AvscPath(root, e);
    if p !in fs then [FileMissing(l.domain, Get(e, "name"), p)]
    else if fs[p].Unparsable? then [InvalidJson(p)]
    else
      var embedded, declared := Embedded(fs[p].value), Get(e, "version");
      if !PyEq(embedded, declared) then [VersionMismatch(l.domain, Get(e, "name"), declared, embedded)]
      else []
  }

  predicate AllReadable(root: string, fs: FileSystem, ls: seq<Located>)
  {
    forall i :: 0 <= i < |ls| ==> EntryReadable(root, fs, ls[i].entry)
  }

  /** The problem list `validate` returns for the pairs `ls`, in order. */
  function Problems(root: string, fs: FileSystem, ls: seq<Located>): seq<Problem>
    requires AllReadable(root, fs, ls)
  {
    if ls == [] then []
    else Problems(root, fs, ls[..|ls| - 1]) + EntryProblem(root, fs, ls[|ls| - 1])
  }

  // ---------------------------------------------------------------------------
  // validate
  // ---------------------------------------------------------------------------

  /**
    A parsed manifest `validate` walks without raising: a dict whose
    `schemas` is a dict of iterables, yielding only readable entries.
  */
  predicate ManifestReadable(root: string, fs: FileSystem, manifest: Value)
  {
    && manifest.JObj?
    && GetOr(manifest, "schemas", JObj([])).JObj?
    && (forall g :: g in GroupsOf(manifest) ==> Iterable(g.value))
    && AllReadable(root, fs, ManifestEntries(GroupsOf(manifest)))
  }

  /**
    `validate()` on the manifest file (absent, unparsable or parsed), the
    schema files `fs` and the repository root `root`: the load error
    `_load_manifest` raises, or the problems found.
  */
  method Validate(root: string, fs: FileSystem, manifest: Option<Content>) returns (r: Result<seq<Problem>, LoadError>)
    requires manifest.Some? && manifest.value.Json? ==> ManifestReadable(root, fs, manifest.value.value)
    ensures manifest.None? ==> r == Err(ManifestNotFound)
    ensures manifest.Some? && manifest.value.Unparsable? ==> r == Err(InvalidYaml)
    ensures manifest.Some? && manifest.value.Json? ==>
      r == Ok(Problems(root, fs, ManifestEntries(GroupsOf(manifest.value.value))))
  {
    if manifest.None? {
      return Err(ManifestNotFound);
    }
    if manifest.value.Unparsable? {
      return Err(InvalidYaml);
    }
    var ms := GroupsOf(manifest.value.value);
    var problems: seq<Problem> := [];
    var i := 0;
    while i < |ms|
      invariant 0 <= i <= |ms|
      invariant AllReadable(root, fs, ManifestEntries(ms[..i]))
      invariant problems == Problems(root, fs, ManifestEntries(ms[..i]))
    {
      ReadableGroups(root, fs, ms, i + 1);
      ManifestEntriesStep(ms, i);
      problems := ValidateGroup(root, fs, ManifestEntries(ms[..i]), ms[i].key, Iterated(ms[i].value), problems);
      i := i + 1;
    }
    PrefixAll(ms);
    return Ok(problems);
  }

  /** The entries of one domain, checked in turn. */
  method ValidateGroup(root: string, fs: FileSystem, ghost before: seq<Located>, domain: string, es: seq<Value>,
                       problems0: seq<Problem>) returns (problems: seq<Problem>)
    requires AllReadable(root, fs, before + Locate(domain, es))
    requires AllReadable(root, fs, before) && problems0 == Problems(root, fs, before)
    ensures problems == Problems(root, fs, before + Locate(domain, es))
  {
    problems := problems0;
    var j := 0;
    LocatePrefix(before, domain, es, 0);
    while j < |es|
      invariant 0 <= j <= |es|
      invariant AllReadable(root, fs, before + Locate(domain, es[..j]))
      invariant problems == Problems(root, fs, before + Locate(domain, es[..j]))
    {
      LocatePrefix(before, domain, es, j + 1);
      ReadablePrefix(root, fs, before + Locate(domain, es), |before| + j + 1);
      LocateStep(before, domain, es, j);
      ProblemsStep(root, fs, before + Locate(domain, es[..j]), Located(domain, es[j]));
      problems := ValidateFile(root, fs, domain, es[j], problems);
      j := j + 1;
    }
    LocatePrefix(before, domain, es, |es|);
    assert es[..|es|] == es;
  }

  /** `_validate_file(domain, entry, errors)`: appends the entry's problem, if any. */
  method ValidateFile(root: string, fs: FileSystem, domain: string, entry: Value, errors0: seq<Problem>)
    returns (errors: seq<Problem>)
    requires EntryReadable(root, fs, entry)
    ensures errors == errors0 + EntryProblem(root, fs, Located(domain, entry))
  {
    var avscPath := Join(root, Get(entry, "file").s);
    if avscPath !in fs {
      return errors0 + [FileMissing(domain, Get(entry, "name"), avscPath)];
    }
    if fs[avscPath].Unparsable? {
      return errors0 + [InvalidJson(avscPath)];
    }
    var schemaJson := fs[avscPath].value;
    var top := if schemaJson.JArr? then schemaJson.items[0] else schemaJson;
    var embeddedVersion := Get(top, "version");
    var declaredVersion := Get(entry, "version");
    if !PyEq(embeddedVersion, declaredVersion) {
      return errors0 + [VersionMismatch(domain, Get(entry, "name"), declaredVersion, embeddedVersion)];
    }
    return errors0;
  }

  /** The exit status of `main`: an uncaught load error exits 1 like a non-empty problem list. */
  function ExitStatus(r: Result<seq<Problem>, LoadError>): (code: int)
  {
    if r.Err? || r.value != [] then 1 else 0
  }

  // ---------------------------------------------------------------------------
  // Properties
  // ---------------------------------------------------------------------------

  /** Every problem of an entry is in the list. */
  lemma {:induction false} EntryProblemListed(root: string, fs: FileSystem, ls: seq<Located>, i: int)
    requires AllReadable(root, fs, ls) && 0 <= i < |ls|
    ensures forall p :: p in EntryProblem(root, fs, ls[i]) ==> p in Problems(root, fs, ls)
  {
    if i < |ls| - 1 {
      var init := ls[..|ls| - 1];
      ReadablePrefix(root, fs, ls, |ls| - 1);
      PrefixIndex(ls, |ls| - 1, i);
      EntryProblemListed(root, fs, init, i);
    }
  }

  /** Every problem in the list belongs to some entry: there are no others. */
  lemma {:induction false} ProblemHasEntry(root: string, fs: FileSystem, ls: seq<Located>, p: Problem)
    requires AllReadable(root, fs, ls) && p in Problems(root, fs, ls)
    ensures exists i :: 0 <= i < |ls| && p in EntryProblem(root, fs, ls[i])
  {
    var init, l := ls[..|ls| - 1], ls[|ls| - 1];
    ReadablePrefix(root, fs, ls, |ls| - 1);
    if p in Problems(root, fs, init) {
      ProblemHasEntry(root, fs, init, p);
      var i :| 0 <= i < |init| && p in EntryProblem(root, fs, init[i]);
      PrefixIndex(ls, |ls| - 1, i);
    } else {
      assert p in EntryProblem(root, fs, ls[|ls| - 1]);
    }
  }

  /** The problem list is empty exactly when every listed file exists, parses and embeds the declared version. */
  lemma ProblemsEmptyIff(root: string, fs: FileSystem, ls: seq<Located>)
    requires AllReadable(root, fs, ls)
    ensures Problems(root, fs, ls) == [] <==> forall i :: 0 <= i < |ls| ==> Passes(root, fs, ls[i].entry)
  {
    if |Problems(root, fs, ls)| == 0 {
      forall i | 0 <= i < |ls| ensures Passes(root, fs, ls[i].entry) {
        EmptyPasses(root, fs, ls, i);
      }
    } else {
      FailingEntry(root, fs, ls);
    }
  }

  /** With no problem, each entry passes. */
  lemma EmptyPasses(root: string, fs: FileSystem, ls: seq<Located>, i: int)
    requires AllReadable(root, fs, ls) && 0 <= i < |ls| && |Problems(root, fs, ls)| == 0
    ensures Passes(root, fs, ls[i].entry)
  {
    EntryProblemListed(root, fs, ls, i);
    if |EntryProblem(root, fs, ls[i])| > 0 {
      assert false;
    }
  }

  /** With a problem, some entry fails. */
  lemma FailingEntry(root: string, fs: FileSystem, ls: seq<Located>)
    requires AllReadable(root, fs, ls) && |Problems(root, fs, ls)| > 0
    ensures exists i :: 0 <= i < |ls| && !Passes(root, fs, ls[i].entry)
  {
    ProblemHasEntry(root, fs, ls, Problems(root, fs, ls)[0]);
  }

  /** A file that is absent is reported as missing, under its domain, name and path. */
  lemma MissingFileReported(root: string, fs: FileSystem, ls: seq<Located>, i: int)
    requires AllReadable(root, fs, ls) && 0 <= i < |ls| && AvscPath(root, ls[i].entry) !in fs
    ensures FileMissing(ls[i].domain, Get(ls[i].entry, "name"), AvscPath(root, ls[i].entry)) in Problems(root, fs, ls)
  {
    EntryProblemListed(root, fs, ls, i);
  }

  /** A file that does not parse is reported as invalid JSON under its path. */
  lemma InvalidJsonReported(root: string, fs: FileSystem, ls: seq<Located>, i: int)
    requires AllReadable(root, fs, ls) && 0 <= i < |ls|
    requires var p := AvscPath(root, ls[i].entry); p in fs && fs[p].Unparsable?
    ensures InvalidJson(AvscPath(root, ls[i].entry)) in Problems(root, fs, ls)
  {
    EntryProblemListed(root, fs, ls, i);
  }

  /**
    A parsed file whose embedded version differs from the declared one under
    Python's `!=` is reported with both versions.
  */
  lemma VersionMismatchReported(root: string, fs: FileSystem, ls: seq<Located>, i: int)
    requires AllReadable(root, fs, ls) && 0 <= i < |ls|
    requires var p := AvscPath(root, ls[i].entry);
      p in fs && fs[p].Json? && !PyEq(Embedded(fs[p].value), Get(ls[i].entry, "version"))
    ensures var e, p := ls[i].entry, AvscPath(root, ls[i].entry);
      VersionMismatch(ls[i].domain, Get(e, "name"), Get(e, "version"), Embedded(fs[p].value)) in Problems(root, fs, ls)
  {
    EntryProblemListed(root, fs, ls, i);
  }

  /** The pairs yielded are exactly the entries of each domain, paired with that domain's key. */
  lemma {:induction false} ManifestEntriesIff(ms: seq<Member>, l: Located)
    ensures l in ManifestEntries(ms) <==>
      exists k :: 0 <= k < |ms| && ms[k].key == l.domain && l.entry in Iterated(ms[k].value)
  {
    if ms != [] {
      var init, g := ms[..|ms| - 1], ms[|ms| - 1];
      ManifestEntriesIff(init, l);
      LocateIn(g.key, Iterated(g.value), l);
      forall k | 0 <= k < |init| ensures init[k] == ms[k] {
        PrefixIndex(ms, |ms| - 1, k);
      }
    }
  }

  lemma LocateIn(domain: string, es: seq<Value>, l: Located)
    ensures l in Locate(domain, es) <==> l.domain == domain && l.entry in es
  {
    if l.domain == domain && l.entry in es {
      var i :| 0 <= i < |es| && es[i] == l.entry;
      assert Locate(domain, es)[i] == l;
    }
  }

  /** `main` exits 0 exactly when the manifest loads and every listed file passes. */
  lemma ExitZeroIff(root: string, fs: FileSystem, manifest: Option<Content>, r: Result<seq<Problem>, LoadError>)
    requires manifest.Some? && manifest.value.Json? ==> ManifestReadable(root, fs, manifest.value.value)
    requires manifest.None? ==> r == Err(ManifestNotFound)
    requires manifest.Some? && manifest.value.Unparsable? ==> r == Err(InvalidYaml)
    requires manifest.Some? && manifest.value.Json? ==>
      r == Ok(Problems(root, fs, ManifestEntries(GroupsOf(manifest.value.value))))
    ensures ExitStatus(r) == 0 <==>
      manifest.Some? && manifest.value.Json? &&
      var ls := ManifestEntries(GroupsOf(manifest.value.value));
      forall i :: 0 <= i < |ls| ==> Passes(root, fs, ls[i].entry)
  {
    if manifest.Some? && manifest.value.Json? {
      ProblemsEmptyIff(root, fs, ManifestEntries(GroupsOf(manifest.value.value)));
    }
  }

  // ---------------------------------------------------------------------------
  // Version comparison, on concrete files
  // ---------------------------------------------------------------------------

  const SchemaFile: string := "schemas/a.avsc"

  /** A manifest entry `{file, name, version}` for `SchemaFile`. */
  function EntryWith(version: Value): Value
  {
    JObj([Member("file", JStr(SchemaFile)), Member("name", JStr("A")), Member("version", version)])
  }

  /** A quoted version `"1.0"` in the manifest does not match the number `1.0` in the file. */
  lemma QuotedVersionMismatches(root: string)
    ensures var fs := map[Join(root, SchemaFile) := Json(JObj([Member("version", JFloat("1.0"))]))];
      EntryProblem(root, fs, Located("d", EntryWith(JStr("1.0")))) ==
        [VersionMismatch("d", JStr("A"), JStr("1.0"), JFloat("1.0"))]
  {
    var fs := map[Join(root, SchemaFile) := Json(JObj([Member("version", JFloat("1.0"))]))];
    assert Get(EntryWith(JStr("1.0")), "version") == JStr("1.0");
    assert Get(EntryWith(JStr("1.0")), "file") == JStr(SchemaFile);
    assert Get(EntryWith(JStr("1.0")), "name") == JStr("A");
    assert Embedded(fs[Join(root, SchemaFile)].value) == JFloat("1.0");
  }

  /** The integer `1` in the manifest matches the float `1.0` in the file. */
  lemma IntVersionMatchesFloat(root: string)
    ensures var fs := map[Join(root, SchemaFile) := Json(JObj([Member("version", JFloat("1.0"))]))];
      EntryProblem(root, fs, Located("d", EntryWith(JInt(1)))) == []
  {
    var fs := map[Join(root, SchemaFile) := Json(JObj([Member("version", JFloat("1.0"))]))];
    assert Get(EntryWith(JInt(1)), "version") == JInt(1);
    assert Get(EntryWith(JInt(1)), "file") == JStr(SchemaFile);
    assert Embedded(fs[Join(root, SchemaFile)].value) == JFloat("1.0");
    assert IntToDecimal(1) == "1";
  }

  /** A file holding a list of definitions is compared through its first definition only. */
  lemma ListFileUsesFirst(root: string)
    ensures var fs := map[Join(root, SchemaFile) :=
          Json(JArr([JObj([Member("version", JInt(2))]), JObj([Member("version", JInt(1))])]))];
      EntryProblem(root, fs, Located("d", EntryWith(JInt(1)))) ==
        [VersionMismatch("d", JStr("A"), JInt(1), JInt(2))]
  {
    var fs := map[Join(root, SchemaFile) :=
          Json(JArr([JObj([Member("version", JInt(2))]), JObj([Member("version", JInt(1))])]))];
    assert Get(EntryWith(JInt(1)), "version") == JInt(1);
    assert Get(EntryWith(JInt(1)), "file") == JStr(SchemaFile);
    assert Get(EntryWith(JInt(1)), "name") == JStr("A");
    assert Embedded(fs[Join(root, SchemaFile)].value) == JInt(2);
  }

  /** An entry and a file that both leave out `version` agree (`None == None`). */
  lemma AbsentVersionsAgree(root: string)
    ensures var fs := map[Join(root, SchemaFile) := Json(JObj([Member("type", JStr("record"))]))];
      var entry := JObj([Member("file", JStr(SchemaFile)), Member("name", JStr("A"))]);
      EntryProblem(root, fs, Located("d", entry)) == []
  {
    var fs := map[Join(root, SchemaFile) := Json(JObj([Member("type", JStr("record"))]))];
    var entry := JObj([Member("file", JStr(SchemaFile)), Member("name", JStr("A"))]);
    assert Get(entry, "file") == JStr(SchemaFile);
    assert Get(entry, "version") == JNull;
    assert Embedded(fs[Join(root, SchemaFile)].value) == JNull;
  }

  // ---------------------------------------------------------------------------
  // Helpers for the loops
  // ---------------------------------------------------------------------------

  lemma ManifestEntriesStep(ms: seq<Member>, i: int)
    requires 0 <= i < |ms|
    ensures ManifestEntries(ms[..i + 1]) == ManifestEntries(ms[..i]) + Locate(ms[i].key, Iterated(ms[i].value))
  {
    PrefixInit(ms, i);
  }

  /** The pairs of the first `i` domains are readable when all pairs are. */
  lemma {:induction false} ReadableGroups(root: string, fs: FileSystem, ms: seq<Member>, i: int)
    requires AllReadable(root, fs, ManifestEntries(ms)) && 0 <= i <= |ms|
    ensures AllReadable(root, fs, ManifestEntries(ms[..i]))
    decreases |ms|
  {
    if i == |ms| {
      assert ms[..i] == ms;
    } else {
      var init := ms[..|ms| - 1];
      var g := ms[|ms| - 1];
      assert ManifestEntries(ms) == ManifestEntries(init) + Locate(g.key, Iterated(g.value));
      ReadablePrefix(root, fs, ManifestEntries(ms), |ManifestEntries(init)|);
      assert ManifestEntries(ms)[..|ManifestEntries(init)|] == ManifestEntries(init);
      ReadableGroups(root, fs, init, i);
      assert init[..i] == ms[..i];
    }
  }

  lemma LocatePrefix(before: seq<Located>, domain: string, es: seq<Value>, n: int)
    requires 0 <= n <= |es|
    ensures before + Locate(domain, es[..n]) == (before + Locate(domain, es))[..|before| + n]
  {
  }

  lemma LocateStep(before: seq<Located>, domain: string, es: seq<Value>, j: int)
    requires 0 <= j < |es|
    ensures before + Locate(domain, es[..j + 1]) == (before + Locate(domain, es[..j])) + [Located(domain, es[j])]
  {
  }

  /** One more pair adds its own problem at the end. */
  lemma ProblemsStep(root: string, fs: FileSystem, ls: seq<Located>, l: Located)
    requires AllReadable(root, fs, ls + [l])
    ensures AllReadable(root, fs, ls) && EntryReadable(root, fs, l.entry)
    ensures Problems(root, fs, ls + [l]) == Problems(root, fs, ls) + EntryProblem(root, fs, l)
  {
    assert (ls + [l])[..|ls|] == ls;
    assert (ls + [l])[|ls|] == l;
  }

  /** Readability of a sequence of pairs carries over to its prefixes. */
  lemma ReadablePrefix(root: string, fs: FileSystem, ls: seq<Located>, n: int)
    requires AllReadable(root, fs, ls) && 0 <= n <= |ls|
    ensures AllReadable(root, fs, ls[..n])
  {
  }
}
