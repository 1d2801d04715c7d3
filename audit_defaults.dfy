// The nullability auditor of tools/audit_schema_defaults.py: every field
// whose type is a union with a null branch must say `"default": null`, and
// no other field may.

module AuditDefaults {
  import opened JsonValue
  import AddDefaults

  // ---------------------------------------------------------------------------
  // _is_nullable
  // ---------------------------------------------------------------------------

  /** A union branch that admits null: the string "null" or a dict whose type is "null". */
  predicate NullBranch(t: Value)
  {
    t == JStr("null") || (t.JObj? && Get(t, "type") == JStr("null"))
  }

  /** `_is_nullable`: a list with a null branch anywhere; nothing but a list is nullable. */
  predicate IsNullable(t: Value)
  {
    t.JArr? && exists i :: 0 <= i < |t.items| && NullBranch(t.items[i])
  }

  /** Nullability looks at every branch, unlike the default rule, which looks only at the first. */
  lemma NullableBeyondFirstBranch()
    ensures var t := JArr([JStr("string"), JStr("null")]);
      IsNullable(t) && AddDefaults.DefaultForType(t) == JStr("")
  {
    var t := JArr([JStr("string"), JStr("null")]);
    assert NullBranch(t.items[1]);
  }

  /** A string, a dict or any other non-list type is never nullable, even `"null"` itself. */
  lemma OnlyListsNullable(t: Value)
    ensures !t.JArr? ==> !IsNullable(t)
    ensures IsNullable(JArr([JStr("null")])) && !IsNullable(JStr("null")) && !IsNullable(JObj([Member("type", JStr("null"))]))
  {
    assert NullBranch(JArr([JStr("null")]).items[0]);
  }

  // ---------------------------------------------------------------------------
  // Problems
  // ---------------------------------------------------------------------------

  /** One line of the report; the text of each message is not modelled, only its kind and subject. */
  datatype Problem =
    | InvalidJson(path: string)
    | MissingNullDefault(field: string)
    | NullDefaultNotNullable(field: string)
    | MissingFile(path: string)

  /** `s.lstrip('.')`: the longest suffix of `s` after leading dots. */
  function LeftStripDots(s: string): (r: string)
    ensures |r| <= |s| && s[|s| - |r|..] == r
    ensures forall i :: 0 <= i < |s| - |r| ==> s[i] == '.'
    ensures r == [] || r[0] != '.'
  {
    if s == [] || s[0] != '.' then s
    else
      var r := LeftStripDots(s[1..]);
      assert s[1..][|s[1..]| - |r|..] == s[|s| - |r|..];
      assert forall i :: 1 <= i < |s| - |r| ==> s[i] == s[1..][i - 1];
      r
  }

  /** `s.rstrip('.')`: the longest prefix of `s` before trailing dots. */
  function RightStripDots(s: string): (r: string)
    ensures |r| <= |s| && s[..|r|] == r
    ensures forall i :: |r| <= i < |s| ==> s[i] == '.'
    ensures r == [] || r[|r| - 1] != '.'
  {
    if s == [] || s[|s| - 1] != '.' then s
    else
      var r := RightStripDots(s[..|s| - 1]);
      assert s[..|s| - 1][..|r|] == s[..|r|];
      r
  }

  /** `s.strip('.')`. */
  function StripDots(s: string): (r: string)
  {
    RightStripDots(LeftStripDots(s))
  }

  /** What `strip` keeps is a middle part of `s`. */
  lemma StripDotsMiddle(s: string)
    ensures var a := |s| - |LeftStripDots(s)|;
      && a + |StripDots(s)| <= |s| && s[a..a + |StripDots(s)|] == StripDots(s)
  {
    var l := LeftStripDots(s);
    var r := RightStripDots(l);
    MiddleOfSuffix(s, |s| - |l|, l, r);
  }

  /** What `strip` keeps has no dot at either end. */
  lemma StripDotsEnds(s: string)
    ensures StripDots(s) == [] || (StripDots(s)[0] != '.' && StripDots(s)[|StripDots(s)| - 1] != '.')
  {
    var l := LeftStripDots(s);
    var r := RightStripDots(l);
    if r != [] {
      assert r[0] == l[0];
    }
  }

  /** A prefix of a suffix is a slice. */
  lemma MiddleOfSuffix<T>(s: seq<T>, a: int, l: seq<T>, r: seq<T>)
    requires 0 <= a <= |s| && l == s[a..] && |r| <= |l| && r == l[..|r|]
    ensures a + |r| <= |s| && s[a..a + |r|] == r
  {
    SliceOfSlice(s, a, |r|);
  }

  /** What `strip` removes is dots only. */
  lemma StripDotsRemovesDots(s: string)
    ensures var a := |s| - |LeftStripDots(s)|;
      && (forall i :: 0 <= i < a ==> s[i] == '.')
      && (forall i :: a + |StripDots(s)| <= i < |s| ==> s[i] == '.')
  {
    var l := LeftStripDots(s);
    var r := RightStripDots(l);
    var a := |s| - |l|;
    assert l == s[a..];
    forall i | a + |r| <= i < |s| ensures s[i] == '.' {
      assert s[i] == l[i - a];
    }
  }

  lemma StripDotsExample()
    ensures StripDots(".a.") == "a"
  {
    assert ".a."[1..] == "a.";
    assert LeftStripDots("a.") == "a.";
    assert "a."[..1] == "a";
    assert RightStripDots("a") == "a";
  }

  /** `str(v)` in an f-string, for the names the report prints. */
  predicate Printable(v: Value)
  {
    IsScalar(v) || v.JNull?
  }

  function Display(v: Value): string
    requires Printable(v)
  {
    if v.JNull? then "None" else PyStr(v)
  }

  /** `"default" in fld and fld["default"] is None`. */
  predicate HasNullDefault(f: Value)
  {
    Has(f, "default") && Get(f, "default") == JNull
  }

  /** The problems of one field: the two independent `if`s of the field loop. */
  function FieldProblems(fullName: string, f: Value): (r: seq<Problem>)
    requires FieldCheckable(f)
  {
    var nullable := IsNullable(Get(f, "type"));
    var hasNullDefault := HasNullDefault(f);
    (if nullable && !hasNullDefault then [MissingNullDefault(fullName + "." + Display(Get(f, "name")))] else []) +
    (if !nullable && hasNullDefault then [NullDefaultNotNullable(fullName + "." + Display(Get(f, "name")))] else [])
  }

  /** A field the loop handles without raising: a dict with a type, and a printable name when it is reported. */
  predicate FieldCheckable(f: Value)
  {
    f.JObj? && Has(f, "type") &&
    (IsNullable(Get(f, "type")) != HasNullDefault(f) ==> Has(f, "name") && Printable(Get(f, "name")))
  }

  /** Each field yields at most one problem, and one exactly when its nullability and its null default disagree. */
  lemma FieldProblemsAtMostOne(fullName: string, f: Value)
    requires FieldCheckable(f)
    ensures |FieldProblems(fullName, f)| <= 1
    ensures |FieldProblems(fullName, f)| == 1 <==> IsNullable(Get(f, "type")) != HasNullDefault(f)
    ensures IsNullable(Get(f, "type")) && !HasNullDefault(f) ==>
      FieldProblems(fullName, f) == [MissingNullDefault(fullName + "." + Display(Get(f, "name")))]
    ensures !IsNullable(Get(f, "type")) && HasNullDefault(f) ==>
      FieldProblems(fullName, f) == [NullDefaultNotNullable(fullName + "." + Display(Get(f, "name")))]
  {
  }

  predicate FieldsCheckable(fs: seq<Value>)
  {
    forall i :: 0 <= i < |fs| ==> FieldCheckable(fs[i])
  }

  /** The problems of a field list, in field order. */
  function FieldsProblems(fullName: string, fs: seq<Value>): seq<Problem>
    requires FieldsCheckable(fs)
  {
    if fs == [] then []
    else FieldsProblems(fullName, fs[..|fs| - 1]) + FieldProblems(fullName, fs[|fs| - 1])
  }

  /** `{namespace.strip('.')}.{name}`. */
  function FullName(rec: Value): string
    requires rec.JObj? && RecordNamed(rec)
  {
    var ns := GetOr(rec, "namespace", JStr(""));
    StripDots(ns.s) + "." + Display(Get(rec, "name"))
  }

  predicate RecordNamed(rec: Value)
  {
    Has(rec, "name") && Printable(Get(rec, "name")) && GetOr(rec, "namespace", JStr("")).JStr?
  }

  function RecordFields(rec: Value): seq<Value>
  {
    var fs := GetOr(rec, "fields", JArr([]));
    if fs.JArr? then fs.items else []
  }

  predicate IsRecordDef(rec: Value)
  {
    rec.JObj? && Get(rec, "type") == JStr("record")
  }

  /**
    A definition the record loop handles without raising: a dict; when it is
    a record, a printable name, a string namespace when present, and a list
    of checkable fields when present.
  */
  predicate RecordCheckable(rec: Value)
  {
    rec.JObj? &&
    (IsRecordDef(rec) ==>
      RecordNamed(rec) && GetOr(rec, "fields", JArr([])).JArr? && FieldsCheckable(RecordFields(rec)))
  }

  /** The problems of one definition: none unless it is a record. */
  function RecordProblems(rec: Value): seq<Problem>
    requires RecordCheckable(rec)
  {
    if !IsRecordDef(rec) then [] else FieldsProblems(FullName(rec), RecordFields(rec))
  }

  predicate RecordsCheckable(recs: seq<Value>)
  {
    forall i :: 0 <= i < |recs| ==> RecordCheckable(recs[i])
  }

  function RecordsProblems(recs: seq<Value>): seq<Problem>
    requires RecordsCheckable(recs)
  {
    if recs == [] then []
    else RecordsProblems(recs[..|recs| - 1]) + RecordProblems(recs[|recs| - 1])
  }

  /** `records = schema_json if isinstance(schema_json, list) else [schema_json]`. */
  function Definitions(v: Value): seq<Value>
  {
    if v.JArr? then v.items else [v]
  }

  predicate ContentCheckable(c: Content)
  {
    c.Json? ==> RecordsCheckable(Definitions(c.value))
  }

  /** `_check_schema` on one file's content: one invalid-JSON problem, or the problems of every definition. */
  function SchemaProblems(path: string, c: Content): seq<Problem>
    requires ContentCheckable(c)
  {
    match c
    case Unparsable => [InvalidJson(path)]
    case Json(v) => RecordsProblems(Definitions(v))
  }

  // ---------------------------------------------------------------------------
  // Properties of the schema check
  // ---------------------------------------------------------------------------

  /** A parse failure gives exactly one problem and no field is checked. */
  lemma InvalidJsonOnly(path: string)
    ensures SchemaProblems(path, Unparsable) == [InvalidJson(path)]
  {
  }

  /** A definition that is not a record contributes nothing. */
  lemma {:induction false} NonRecordsSkipped(recs: seq<Value>)
    requires RecordsCheckable(recs)
    requires forall i :: 0 <= i < |recs| ==> !IsRecordDef(recs[i])
    ensures RecordsProblems(recs) == []
  {
    if recs != [] {
      NonRecordsSkipped(recs[..|recs| - 1]);
    }
  }

  /** Problems of a definition list concatenate: inserting a definition inserts exactly its problems there. */
  lemma {:induction false} RecordsProblemsAppend(a: seq<Value>, b: seq<Value>)
    requires RecordsCheckable(a) && RecordsCheckable(b)
    ensures RecordsCheckable(a + b)
    ensures RecordsProblems(a + b) == RecordsProblems(a) + RecordsProblems(b)
  {
    if b != [] {
      var b' := b[..|b| - 1];
      assert (a + b)[..|a + b| - 1] == a + b';
      RecordsProblemsAppend(a, b');
    } else {
      assert a + b == a;
    }
  }

  /** Every element of a list file is examined. */
  lemma ListFileEveryElement(path: string, items: seq<Value>)
    requires RecordsCheckable(items)
    ensures ContentCheckable(Json(JArr(items))) && SchemaProblems(path, Json(JArr(items))) == RecordsProblems(items)
  {
  }

  /** A file holding one definition is checked as that definition. */
  lemma SingleDefinition(path: string, x: Value)
    requires RecordCheckable(x) && !x.JArr?
    ensures ContentCheckable(Json(x)) && SchemaProblems(path, Json(x)) == RecordProblems(x)
  {
    assert Definitions(x) == [x];
    assert [x][..0] == [];
    assert RecordsProblems([x]) == RecordsProblems([]) + RecordProblems(x);
  }

  /** Every problem of a field list names a field, one per offending field. */
  lemma {:induction false} FieldsProblemsCount(fullName: string, fs: seq<Value>)
    requires FieldsCheckable(fs)
    ensures |FieldsProblems(fullName, fs)| <= |fs|
    ensures forall p :: p in FieldsProblems(fullName, fs) ==> p.MissingNullDefault? || p.NullDefaultNotNullable?
  {
    if fs != [] {
      FieldsProblemsCount(fullName, fs[..|fs| - 1]);
      FieldProblemsAtMostOne(fullName, fs[|fs| - 1]);
    }
  }

  // ---------------------------------------------------------------------------
  // _check_schema, appending to the caller's list
  // ---------------------------------------------------------------------------

  method CheckSchema(path: string, c: Content, problems: seq<Problem>) returns (out: seq<Problem>)
    requires ContentCheckable(c)
    ensures out == problems + SchemaProblems(path, c)
  {
    if c.Unparsable? {
      out := problems + [InvalidJson(path)];
      return;
    }
    out := CheckDefinitions(Definitions(c.value), problems);
  }

  /** The record loop of `_check_schema`. */
  method CheckDefinitions(records: seq<Value>, problems: seq<Problem>) returns (out: seq<Problem>)
    requires RecordsCheckable(records)
    ensures out == problems + RecordsProblems(records)
  {
    out := problems;
    var i := 0;
    while i < |records|
      invariant 0 <= i <= |records|
      invariant out == problems + RecordsProblems(records[..i])
    {
      RecordsProblemsStep(records, i);
      ConcatAssoc(problems, RecordsProblems(records[..i]), RecordProblems(records[i]));
      out := CheckDefinition(records[i], out);
      i := i + 1;
    }
    PrefixAll(records);
  }

  lemma RecordsProblemsStep(records: seq<Value>, i: int)
    requires RecordsCheckable(records) && 0 <= i < |records|
    ensures RecordCheckable(records[i]) && RecordsCheckable(records[..i]) && RecordsCheckable(records[..i + 1])
    ensures RecordsProblems(records[..i + 1]) == RecordsProblems(records[..i]) + RecordProblems(records[i])
  {
    PrefixInit(records, i);
  }

  /** One pass of the field loop: the two checks, each appending at most one problem. */
  method CheckField(fullName: string, fld: Value, problems: seq<Problem>) returns (out: seq<Problem>)
    requires FieldCheckable(fld)
    ensures out == problems + FieldProblems(fullName, fld)
  {
    var nullable := IsNullable(Get(fld, "type"));
    var hasNullDefault := Has(fld, "default") && Get(fld, "default") == JNull;
    out := problems;
    if nullable && !hasNullDefault {
      out := out + [MissingNullDefault(fullName + "." + Display(Get(fld, "name")))];
    }
    if !nullable && hasNullDefault {
      out := out + [NullDefaultNotNullable(fullName + "." + Display(Get(fld, "name")))];
    }
  }

  lemma FieldsProblemsStep(fullName: string, fields: seq<Value>, j: int)
    requires FieldsCheckable(fields) && 0 <= j < |fields|
    ensures FieldCheckable(fields[j]) && FieldsCheckable(fields[..j]) && FieldsCheckable(fields[..j + 1])
    ensures FieldsProblems(fullName, fields[..j + 1]) == FieldsProblems(fullName, fields[..j]) + FieldProblems(fullName, fields[j])
  {
    PrefixInit(fields, j);
  }

  /** One pass of the record loop of `_check_schema`: a non-record is skipped. */
  method CheckDefinition(rec: Value, problems: seq<Problem>) returns (out: seq<Problem>)
    requires RecordCheckable(rec)
    ensures out == problems + RecordProblems(rec)
  {
    if IsRecordDef(rec) {
      out := CheckFields(FullName(rec), RecordFields(rec), problems);
    } else {
      out := problems;
    }
  }

  /** The field loop of `_check_schema`. */
  method CheckFields(fullName: string, fields: seq<Value>, problems: seq<Problem>) returns (out: seq<Problem>)
    requires FieldsCheckable(fields)
    ensures out == problems + FieldsProblems(fullName, fields)
  {
    out := problems;
    var j := 0;
    while j < |fields|
      invariant 0 <= j <= |fields|
      invariant out == problems + FieldsProblems(fullName, fields[..j])
    {
      FieldsProblemsStep(fullName, fields, j);
      ConcatAssoc(problems, FieldsProblems(fullName, fields[..j]), FieldProblems(fullName, fields[j]));
      out := CheckField(fullName, fields[j], out);
      j := j + 1;
    }
    PrefixAll(fields);
  }

  // ---------------------------------------------------------------------------
  // main: every manifest-referenced file
  // ---------------------------------------------------------------------------

  /** An entry `_iter_schema_files` can read: a dict with a string "file". */
  predicate FileEntry(e: Value)
  {
    e.JObj? && Has(e, "file") && Get(e, "file").JStr?
  }

  /** A group's entry list `_iter_schema_files` can iterate. */
  predicate GroupListable(v: Value)
  {
    v.JArr? && forall i :: 0 <= i < |v.items| ==> FileEntry(v.items[i])
  }

  function GroupsOf(manifest: Value): seq<Member>
  {
    var s := GetOr(manifest, "schemas", JObj([]));
    if s.JObj? then s.members else []
  }

  /** A manifest `_iter_schema_files` accepts: a dict whose schemas are a dict of lists of file entries. */
  predicate ManifestListable(manifest: Value)
  {
    manifest.JObj? && GetOr(manifest, "schemas", JObj([])).JObj? &&
    forall i :: 0 <= i < |GroupsOf(manifest)| ==> GroupListable(GroupsOf(manifest)[i].value)
  }

  function FileOf(e: Value): string
    requires FileEntry(e)
  {
    Get(e, "file").s
  }

  function EntryFiles(es: seq<Value>): (r: seq<string>)
    requires forall i :: 0 <= i < |es| ==> FileEntry(es[i])
    ensures |r| == |es| && forall i :: 0 <= i < |es| ==> r[i] == FileOf(es[i])
  {
    if es == [] then [] else EntryFiles(es[..|es| - 1]) + [FileOf(es[|es| - 1])]
  }

  /** `_iter_schema_files`: the file of every entry, group by group, in manifest order (the root join is the identity). */
  function FilesOf(ms: seq<Member>): seq<string>
    requires forall i :: 0 <= i < |ms| ==> GroupListable(ms[i].value)
  {
    if ms == [] then []
    else
      var last := ms[|ms| - 1];
      assert GroupListable(last.value);
      FilesOf(ms[..|ms| - 1]) + EntryFiles(last.value.items)
  }

  /** Every entry's file is listed. */
  lemma {:induction false} FilesOfComplete(ms: seq<Member>, i: int, j: int)
    requires forall i :: 0 <= i < |ms| ==> GroupListable(ms[i].value)
    requires 0 <= i < |ms| && GroupListable(ms[i].value) && 0 <= j < |ms[i].value.items|
    ensures FileOf(ms[i].value.items[j]) in FilesOf(ms)
  {
    var last := ms[|ms| - 1];
    assert GroupListable(last.value);
    if i < |ms| - 1 {
      PrefixIndex(ms, |ms| - 1, i);
      FilesOfComplete(ms[..|ms| - 1], i, j);
    } else {
      assert EntryFiles(last.value.items)[j] == FileOf(ms[i].value.items[j]);
    }
  }

  predicate FilesCheckable(paths: seq<string>, fs: FileSystem)
  {
    forall i :: 0 <= i < |paths| ==> paths[i] in fs ==> ContentCheckable(fs[paths[i]])
  }

  /** One file of the main loop: missing, or checked. */
  function FileProblems(path: string, fs: FileSystem): seq<Problem>
    requires path in fs ==> ContentCheckable(fs[path])
  {
    if path !in fs then [MissingFile(path)] else SchemaProblems(path, fs[path])
  }

  /** The problems of the main loop, file by file, without short-circuiting. */
  function AuditProblems(paths: seq<string>, fs: FileSystem): seq<Problem>
    requires FilesCheckable(paths, fs)
  {
    if paths == [] then []
    else
      var p := paths[|paths| - 1];
      assert p == paths[|paths| - 1];
      AuditProblems(paths[..|paths| - 1], fs) + FileProblems(p, fs)
  }

  /** The exit decision of `main`. */
  function ExitStatus(problems: seq<Problem>): (code: int)
    ensures code == 0 || code == 1
    ensures code == 1 <==> problems != []
  {
    if problems != [] then 1 else 0
  }

  /** A missing file is reported and not checked. */
  lemma MissingFileNotChecked(path: string, fs: FileSystem)
    requires path !in fs
    ensures FileProblems(path, fs) == [MissingFile(path)]
  {
  }

  /** The run fails exactly when some file is missing or has a problem. */
  lemma {:induction false} AuditFailsIff(paths: seq<string>, fs: FileSystem)
    requires FilesCheckable(paths, fs)
    ensures ExitStatus(AuditProblems(paths, fs)) == 1 <==> exists i :: 0 <= i < |paths| && FileProblems(paths[i], fs) != []
  {
    if paths != [] {
      var init := paths[..|paths| - 1];
      AuditFailsIff(init, fs);
      if exists i :: 0 <= i < |init| && FileProblems(init[i], fs) != [] {
        var i :| 0 <= i < |init| && FileProblems(init[i], fs) != [];
        PrefixIndex(paths, |paths| - 1, i);
      }
      if exists i :: 0 <= i < |paths| && FileProblems(paths[i], fs) != [] {
        var i :| 0 <= i < |paths| && FileProblems(paths[i], fs) != [];
        if i < |paths| - 1 {
          PrefixIndex(paths, |paths| - 1, i);
        }
      }
    }
  }

  /** `main` after the manifest is loaded: the problems of every referenced file. */
  method Audit(manifest: Value, fs: FileSystem) returns (problems: seq<Problem>, code: int)
    requires ManifestListable(manifest)
    requires FilesCheckable(FilesOf(GroupsOf(manifest)), fs)
    ensures problems == AuditProblems(FilesOf(GroupsOf(manifest)), fs)
    ensures code == ExitStatus(problems)
  {
    var files := FilesOf(GroupsOf(manifest));
    problems := [];
    var i := 0;
    while i < |files|
      invariant 0 <= i <= |files|
      invariant problems == AuditProblems(files[..i], fs)
    {
      var schemaFile := files[i];
      PrefixInit(files, i);
      if schemaFile !in fs {
        problems := problems + [MissingFile(schemaFile)];
      } else {
        problems := CheckSchema(schemaFile, fs[schemaFile], problems);
      }
      i := i + 1;
    }
    PrefixAll(files);
    code := ExitStatus(problems);
  }

  /** `_load_manifest`: a missing manifest ends the run with status 1 before any check. */
  method AuditMain(manifest: Option<Value>, fs: FileSystem) returns (problems: seq<Problem>, code: int)
    requires manifest.Some? ==> ManifestListable(manifest.value) && FilesCheckable(FilesOf(GroupsOf(manifest.value)), fs)
    ensures manifest.None? ==> problems == [] && code == 1
    ensures manifest.Some? ==> problems == AuditProblems(FilesOf(GroupsOf(manifest.value)), fs) && code == ExitStatus(problems)
  {
    if manifest.None? {
      problems, code := [], 1;
    } else {
      problems, code := Audit(manifest.value, fs);
    }
  }

  // ---------------------------------------------------------------------------
  // With the default injector
  // ---------------------------------------------------------------------------

  /**
    A field with a null-first union and no default is still reported after
    the default injector has run: the injector writes no `default: null`.
  */
  lemma InjectedNullFirstStillFlagged(fullName: string, f: Value)
    requires AddDefaults.FieldInjectable(f) && !Has(f, "default")
    requires var t := Get(f, "type"); t.JArr? && |t.items| > 0 && t.items[0] == JStr("null")
    requires Has(f, "name") && Printable(Get(f, "name"))
    ensures var g := AddDefaults.InjectField(f);
      FieldCheckable(g) && FieldProblems(fullName, g) == [MissingNullDefault(fullName + "." + Display(Get(f, "name")))]
  {
    var g := AddDefaults.InjectField(f);
    AddDefaults.NullFirstUnionGetsNoDefault(f);
    var t := Get(f, "type");
    var t' := AddDefaults.InjectType(t);
    assert t'.items[0] == JStr("null");
    assert NullBranch(t'.items[0]);
    assert Get(g, "name") == Get(f, "name");
  }
}
