/**
  The manifest normaliser: reads the manifest (or starts an empty one),
  scans the Avro files under the schemas root, and merges the two into a
  manifest where every scanned record has an entry with canonical name,
  aliases and table name, existing metadata is preserved, unscanned entries
  are retained, and each group is sorted.

  The scan is a function over (path relative to the schemas root, parsed
  content) pairs in traversal order; the merge works on values.
*/
module NormalizeManifest {
  import opened JsonValue

  // ---------------------------------------------------------------------------
  // Names
  // ---------------------------------------------------------------------------

  /**
    `_canonicalize_name`: under the style "unsuffixed" one trailing "Schema"
    is removed; every other style leaves the name alone. The style comes from
    the manifest and is compared with Python `==` against a string
    (JsonValue.PyEqString), so it is a Value here.
  */
  function CanonicalizeName(name: string, style: Value): (r: string)
    ensures style == JStr("unsuffixed") && EndsWith(name, "Schema") ==> r + "Schema" == name
    ensures !(style == JStr("unsuffixed") && EndsWith(name, "Schema")) ==> r == name
  {
    if style == JStr("unsuffixed") && EndsWith(name, "Schema") then name[..|name| - 6] else name
  }

  /** Only one suffix goes: canonicalising is not idempotent. */
  lemma CanonicalizeNotIdempotent()
    ensures CanonicalizeName("XSchemaSchema", JStr("unsuffixed")) == "XSchema"
    ensures CanonicalizeName(CanonicalizeName("XSchemaSchema", JStr("unsuffixed")), JStr("unsuffixed")) == "X"
  {
    assert EndsWith("XSchemaSchema", "Schema");
    assert "XSchemaSchema"[..7] == "XSchema";
    assert EndsWith("XSchema", "Schema");
    assert "XSchema"[..1] == "X";
  }

  /** A string with no ASCII capital letters. */
  predicate NoAsciiUpper(s: string)
  {
    forall i :: 0 <= i < |s| ==> !('A' <= s[i] <= 'Z')
  }

  /**
    `_derive_table_name`: canonicalise, strip one more "Schema" if the
    canonical name still ends with it, and lower-case (ASCII).
  */
  function DeriveTableName(name: string, style: Value): (r: string)
    ensures NoAsciiUpper(r)
  {
    var canonical := CanonicalizeName(name, style);
    var base := if EndsWith(canonical, "Schema") then canonical[..|canonical| - 6] else canonical;
    AsciiLower(base)
  }

  lemma AsciiLowerIdempotent(s: string)
    requires NoAsciiUpper(s)
    ensures AsciiLower(s) == s
  {
  }

  /** A lower-cased name never ends with "Schema", so a table name derives to itself. */
  lemma DeriveTableNameIdempotent(name: string, style: Value)
    ensures DeriveTableName(DeriveTableName(name, style), style) == DeriveTableName(name, style)
  {
    var t := DeriveTableName(name, style);
    assert !EndsWith(t, "Schema") by {
      if |t| >= 6 {
        assert t[|t| - 6..][0] == t[|t| - 6];
      }
    }
    assert CanonicalizeName(t, style) == t;
    AsciiLowerIdempotent(t);
  }

  /** The examples the source documents. */
  lemma DeriveTableNameStar()
    ensures DeriveTableName("Star", JStr("unsuffixed")) == "star"
    ensures DeriveTableName("StarSchema", JStr("unsuffixed")) == "star"
  {
    assert !EndsWith("Star", "Schema");
    assert EndsWith("StarSchema", "Schema") && "StarSchema"[..4] == "Star";
    var r := AsciiLower("Star");
    assert r[0] == 's' && r[1] == 't' && r[2] == 'a' && r[3] == 'r';
    assert r == "star";
  }

  /** A suffixed name loses exactly its one suffix under every style, then is lower-cased. */
  lemma DeriveTableNameSuffixed(base: string, style: Value)
    requires !EndsWith(base, "Schema")
    ensures DeriveTableName(base + "Schema", style) == AsciiLower(base)
  {
    var name := base + "Schema";
    assert EndsWith(name, "Schema") by { assert name[|name| - 6..] == "Schema"; }
    assert name[..|name| - 6] == base;
  }

  /** A name without the suffix, such as "ProtoplanetaryDisk", is only lower-cased. */
  lemma DeriveTableNamePlain(name: string, style: Value)
    requires !EndsWith(name, "Schema")
    ensures DeriveTableName(name, style) == AsciiLower(name)
  {
  }

  /**
    `_aliases_for`: the canonical name first, then the other members of
    {canonical, canonical + "Schema", name}, distinct and sorted.
  */
  function AliasesFor(name: string, style: Value): (r: seq<string>)
    ensures |r| >= 2 && r[0] == CanonicalizeName(name, style)
    ensures forall x :: x in r <==> x in {CanonicalizeName(name, style), CanonicalizeName(name, style) + "Schema", name}
    ensures forall i, j :: 0 <= i < j < |r| ==> r[i] != r[j]
    ensures StrSorted(r[1..])
  {
    var base := CanonicalizeName(name, style);
    var suffixed := base + "Schema";
    assert |suffixed| == |base| + 6;
    if name == base || name == suffixed then [base, suffixed]
    else
      StrLtTotal(suffixed, name);
      if StrLt(suffixed, name) then [base, suffixed, name] else [base, name, suffixed]
  }

  // ---------------------------------------------------------------------------
  // _read_manifest
  // ---------------------------------------------------------------------------

  const DefaultAliasPatterns: Value := JArr([JStr("{name}"), JStr("{name}Schema")])

  /**
    The naming values `_read_manifest` completes without raising: a dict, a
    falsy value (replaced by a new dict), or a list or string in which both
    keys already occur, so that nothing is assigned into it.
  */
  predicate NamingCompletable(n: Value)
  {
    || !Truthy(n)
    || n.JObj?
    || (n.JArr? && JStr("canonical") in n.items && JStr("alias_patterns") in n.items)
    || (n.JStr? && Contains(n.s, "canonical") && Contains(n.s, "alias_patterns"))
  }

  function CompleteNaming(n: Value): (r: Value)
    requires NamingCompletable(n)
    ensures !Truthy(n) || n.JObj? ==>
      r.JObj? && Get(r, "canonical") == GetOr(n, "canonical", JStr("unsuffixed")) &&
      Get(r, "alias_patterns") == GetOr(n, "alias_patterns", DefaultAliasPatterns)
    ensures n.JArr? || n.JStr? ==> r == n || !Truthy(n)
  {
    if !Truthy(n) || n.JObj? then
      var base := if Truthy(n) then n else JObj([]);
      var withCanonical := if Has(base, "canonical") then base else Set(base, "canonical", JStr("unsuffixed"));
      if Has(withCanonical, "alias_patterns") then withCanonical
      else Set(withCanonical, "alias_patterns", DefaultAliasPatterns)
    else n
  }

  /**
    `_read_manifest` on the parsed file (None when the file is absent): a
    missing file gives version 1 and no schemas; otherwise "schemas" and the
    naming policy are filled in.
  */
  function ReadManifest(file: Option<Value>): (r: Value)
    requires file.Some? ==> !Truthy(file.value) || (file.value.JObj? && NamingCompletable(Get(file.value, "naming")))
    ensures r.JObj? && Has(r, "schemas")
    ensures file.None? ==> r == JObj([Member("version", JInt(1)), Member("schemas", JObj([]))])
    ensures file.Some? ==> Has(r, "naming") && NamingCompletable(Get(r, "naming"))
    ensures file.Some? && Truthy(file.value) ==>
      forall k, d :: k != "schemas" && k != "naming" ==> GetOr(r, k, d) == GetOr(file.value, k, d)
    ensures file.Some? && Truthy(file.value) && Has(file.value, "schemas") ==>
      Get(r, "schemas") == Get(file.value, "schemas")
    ensures file.Some? && !(Truthy(file.value) && Has(file.value, "schemas")) ==> Get(r, "schemas") == JObj([])
    ensures file.Some? ==>
      var data := if Truthy(file.value) then file.value else JObj([]);
      NamingCompletable(Or(Get(data, "naming"), JObj([]))) &&
      Get(r, "naming") == CompleteNaming(Or(Get(data, "naming"), JObj([])))
  {
    match file
    case None => JObj([Member("version", JInt(1)), Member("schemas", JObj([]))])
    case Some(parsed) =>
      var data := if Truthy(parsed) then parsed else JObj([]);
      var withSchemas := if Has(data, "schemas") then data else Set(data, "schemas", JObj([]));
      var naming := CompleteNaming(Or(Get(withSchemas, "naming"), JObj([])));
      Set(withSchemas, "naming", naming)
  }

  /** Completing a naming policy twice is completing it once. */
  lemma CompleteNamingIdempotent(n: Value)
    requires NamingCompletable(n)
    ensures var c := CompleteNaming(n);
      Truthy(c) && NamingCompletable(c) && CompleteNaming(c) == c
  {
    var c := CompleteNaming(n);
    if !Truthy(n) || n.JObj? {
      var base := if Truthy(n) then n else JObj([]);
      var withCanonical := if Has(base, "canonical") then base else Set(base, "canonical", JStr("unsuffixed"));
      assert Has(withCanonical, "canonical");
      assert Has(c, "canonical") && Has(c, "alias_patterns");
      assert |c.members| > 0;
    }
  }

  /** Reading a manifest that was written from a read manifest changes nothing. */
  lemma ReadManifestIdempotent(file: Option<Value>)
    requires file.Some? ==> !Truthy(file.value) || (file.value.JObj? && NamingCompletable(Get(file.value, "naming")))
    ensures var r := ReadManifest(file); file.Some? ==> ReadManifest(Some(r)) == r
  {
    if file.Some? {
      var parsed := file.value;
      var data := if Truthy(parsed) then parsed else JObj([]);
      var withSchemas := if Has(data, "schemas") then data else Set(data, "schemas", JObj([]));
      var naming := CompleteNaming(Or(Get(withSchemas, "naming"), JObj([])));
      var r := Set(withSchemas, "naming", naming);
      assert r == ReadManifest(file);
      CompleteNamingIdempotent(Or(Get(withSchemas, "naming"), JObj([])));
      assert Has(r, "schemas") && |r.members| > 0;
      assert Get(r, "naming") == naming;
      assert Or(Get(r, "naming"), JObj([])) == naming;
      SetSame(r, "naming");
    }
  }

  // ---------------------------------------------------------------------------
  // _pick_primary_record
  // ---------------------------------------------------------------------------

  predicate IsRecord(v: Value)
  {
    v.JObj? && Get(v, "type") == JStr("record")
  }

  /** Index of the first record among `items`, -1 if there is none. */
  function FirstRecord(items: seq<Value>): (k: int)
    ensures -1 <= k < |items|
    ensures k >= 0 ==> IsRecord(items[k]) && forall j :: 0 <= j < k ==> !IsRecord(items[j])
    ensures k < 0 ==> forall j :: 0 <= j < |items| ==> !IsRecord(items[j])
  {
    if items == [] then -1
    else if IsRecord(items[0]) then 0
    else var k := FirstRecord(items[1..]); if k < 0 then -1 else k + 1
  }

  function RecordsIn(items: seq<Value>): (r: seq<Value>)
    ensures forall x :: x in r <==> x in items && IsRecord(x)
    ensures |r| <= |items|
    ensures r == [] <==> FirstRecord(items) < 0
    ensures r != [] ==> r[0] == items[FirstRecord(items)]
  {
    if items == [] then []
    else (if IsRecord(items[0]) then [items[0]] else []) + RecordsIn(items[1..])
  }

  /**
    The candidates: the document itself if it is a record, or the records of
    a list in order, so that the first candidate is the first record item.
  */
  function Candidates(v: Value): (r: seq<Value>)
    ensures forall x :: x in r ==> IsRecord(x)
    ensures v.JObj? ==> (IsRecord(v) ==> r == [v]) && (!IsRecord(v) ==> r == [])
    ensures v.JArr? ==> (forall x :: x in r <==> x in v.items && IsRecord(x))
    ensures v.JArr? ==> (r == [] <==> FirstRecord(v.items) < 0)
    ensures v.JArr? && r != [] ==> r[0] == v.items[FirstRecord(v.items)]
    ensures !v.JObj? && !v.JArr? ==> r == []
  {
    match v
    case JObj(_) => if IsRecord(v) then [v] else []
    case JArr(items) => RecordsIn(items)
    case _ => []
  }

  /** A record named like the file stem, or like the stem with every "Schema" removed. */
  predicate Preferred(r: Value, stem: string)
  {
    Get(r, "name") == JStr(stem) || Get(r, "name") == JStr(RemoveAll(stem, "Schema"))
  }

  /** Index of the first preferred record, -1 if there is none. */
  function FirstPreferred(cs: seq<Value>, stem: string): (i: int)
    ensures -1 <= i < |cs|
    ensures i >= 0 ==> Preferred(cs[i], stem) && forall j :: 0 <= j < i ==> !Preferred(cs[j], stem)
    ensures i < 0 ==> forall j :: 0 <= j < |cs| ==> !Preferred(cs[j], stem)
  {
    if cs == [] then -1
    else if Preferred(cs[0], stem) then 0
    else var i := FirstPreferred(cs[1..], stem); if i < 0 then -1 else i + 1
  }

  /**
    `_pick_primary_record`: nothing when there is no record candidate;
    otherwise the first preferred candidate, or the first candidate.
  */
  function PickPrimaryRecord(v: Value, stem: string): (r: Option<Value>)
    ensures r.None? <==> Candidates(v) == []
    ensures r.Some? ==> IsRecord(r.value) && r.value in Candidates(v)
    ensures r.Some? && Preferred(r.value, stem) ==>
      exists i :: 0 <= i < |Candidates(v)| && Candidates(v)[i] == r.value &&
        forall j :: 0 <= j < i ==> !Preferred(Candidates(v)[j], stem)
    ensures r.Some? && !Preferred(r.value, stem) ==>
      r.value == Candidates(v)[0] && forall c :: c in Candidates(v) ==> !Preferred(c, stem)
  {
    var cs := Candidates(v);
    if cs == [] then None
    else
      var i := FirstPreferred(cs, stem);
      if i >= 0 then Some(cs[i]) else Some(cs[0])
  }

  // ---------------------------------------------------------------------------
  // _scan_avro, as a function of the files found
  // ---------------------------------------------------------------------------

  /** One file below the schemas root: its path relative to the root and its parsed content. */
  datatype ScannedFile = ScannedFile(rel: string, content: Content)

  /** AvroRecordInfo; name, namespace and doc are whatever the record holds. */
  datatype RecordInfo = RecordInfo(group: string, fileRel: string, name: Value, namespace: Value, doc: Value)

  /** Index of the first '/', -1 if none. */
  function SlashIndex(s: string): (i: int)
    ensures -1 <= i < |s|
    ensures i >= 0 ==> s[i] == '/' && forall j :: 0 <= j < i ==> s[j] != '/'
    ensures i < 0 ==> forall j :: 0 <= j < |s| ==> s[j] != '/'
  {
    if s == [] then -1
    else if s[0] == '/' then 0
    else var i := SlashIndex(s[1..]); if i < 0 then -1 else i + 1
  }

  /** Index of the last occurrence of `c` in `s`, -1 if none. */
  function LastIndexOf(s: string, c: char): (i: int)
    ensures -1 <= i < |s|
    ensures i >= 0 ==> s[i] == c && forall j :: i < j < |s| ==> s[j] != c
    ensures i < 0 ==> forall j :: 0 <= j < |s| ==> s[j] != c
  {
    if s == [] then -1
    else if s[|s| - 1] == c then |s| - 1
    else LastIndexOf(s[..|s| - 1], c)
  }

  /** The final path component: what follows the last '/', or the whole path. */
  function Basename(s: string): (r: string)
    ensures |r| <= |s| && r == s[|s| - |r|..]
    ensures |r| == |s| || s[|s| - |r| - 1] == '/'
    ensures forall j :: 0 <= j < |r| ==> r[j] != '/'
  {
    s[LastIndexOf(s, '/') + 1..]
  }

  /** `Path.stem` of a file name: drop the last suffix, unless the only dot leads the name. */
  function Stem(name: string): (r: string)
    ensures |r| <= |name| && r == name[..|r|]
    ensures r != name ==> 0 < |r| < |name| - 1 && name[|r|] == '.' && forall j :: |r| < j < |name| ==> name[j] != '.'
    ensures forall i :: 0 < i < |name| - 1 && name[i] == '.' && (forall j :: i < j < |name| ==> name[j] != '.') ==> r == name[..i]
  {
    var i := LastIndexOf(name, '.');
    if 0 < i < |name| - 1 then name[..i] else name
  }

  lemma StemExample()
    ensures Stem("MagneticFieldSchema.avsc") == "MagneticFieldSchema"
  {
    assert LastIndexOf("MagneticFieldSchema.avsc", '.') == 19 by {
      var s := "MagneticFieldSchema.avsc";
      assert s[19] == '.';
      assert LastIndexOf(s[..20], '.') == 19 by { assert s[..20][19] == '.'; }
      assert s[..23][..22] == s[..22] && s[..22][..21] == s[..21] && s[..21][..20] == s[..20];
    }
  }

  /** `str(...).replace("\\", "/")`. */
  function Posix(s: string): (r: string)
    ensures |r| == |s| && forall i :: 0 <= i < |s| ==> r[i] == (if s[i] == '\\' then '/' else s[i])
  {
    if s == [] then [] else [if s[0] == '\\' then '/' else s[0]] + Posix(s[1..])
  }

  /**
    The files `_iter_avsc_files` yields: inside a top-level directory that is
    not "tools" or "__pycache__", with a name matching "*.avsc".
  */
  predicate ScannedPath(rel: string)
  {
    var i := SlashIndex(rel);
    i >= 0 && rel[..i] != "tools" && rel[..i] != "__pycache__" && EndsWith(Basename(rel), ".avsc")
  }

  /**
    The loop body of `_scan_avro` for one file: files that do not parse or
    hold no record are skipped; the group is the first path component and
    the recorded path is relative to the repository root (`rootPrefix` is the
    schemas root relative to it, with a trailing slash).
  */
  function ScanFile(f: ScannedFile, rootPrefix: string): (r: Option<RecordInfo>)
    ensures r.Some? ==>
      && ScannedPath(f.rel) && f.content.Json?
      && r.value.group == f.rel[..SlashIndex(f.rel)]
      && r.value.fileRel == Posix(rootPrefix + f.rel)
    ensures r.Some? ==>
      && PickPrimaryRecord(f.content.value, Stem(Basename(f.rel))).Some?
      && var rec := PickPrimaryRecord(f.content.value, Stem(Basename(f.rel))).value;
      && r.value.name == Get(rec, "name")
      && r.value.namespace == GetOr(rec, "namespace", JStr(""))
      && r.value.doc == Get(rec, "doc")
    ensures ScannedPath(f.rel) && f.content.Json? && Candidates(f.content.value) != [] ==> r.Some?
  {
    if !ScannedPath(f.rel) || f.content.Unparsable? then None
    else
      match PickPrimaryRecord(f.content.value, Stem(Basename(f.rel)))
      case None => None
      case Some(rec) =>
        Some(RecordInfo(f.rel[..SlashIndex(f.rel)], Posix(rootPrefix + f.rel),
                        Get(rec, "name"), GetOr(rec, "namespace", JStr("")), Get(rec, "doc")))
  }

  /** `_scan_avro`: one record per scanned file that yields one, in traversal order. */
  function Scan(files: seq<ScannedFile>, rootPrefix: string): (r: seq<RecordInfo>)
    ensures |r| <= |files|
    ensures forall info :: info in r <==> exists i :: 0 <= i < |files| && ScanFile(files[i], rootPrefix) == Some(info)
  {
    if files == [] then []
    else
      var rest := Scan(files[1..], rootPrefix);
      assert forall i :: 0 < i < |files| ==> files[i] == files[1..][i - 1];
      match ScanFile(files[0], rootPrefix)
      case None => rest
      case Some(info) => [info] + rest
  }

  // ---------------------------------------------------------------------------
  // _merge_manifest: the pieces
  // ---------------------------------------------------------------------------

  /** `_entry_key`: (file, namespace), each "" when absent. */
  datatype Key = Key(file: Value, namespace: Value)

  function EntryKey(e: Value): Key
  {
    Key(GetOr(e, "file", JStr("")), GetOr(e, "namespace", JStr("")))
  }

  /** One group of `out_schemas`: the group name and its entry list, in insertion order. */
  datatype Group = Group(name: string, entries: seq<Value>)

  function GroupIndex(gs: seq<Group>, g: string): (i: int)
    ensures -1 <= i < |gs|
    ensures i >= 0 ==> gs[i].name == g && forall j :: 0 <= j < i ==> gs[j].name != g
    ensures i < 0 ==> forall j :: 0 <= j < |gs| ==> gs[j].name != g
  {
    if gs == [] then -1
    else if gs[0].name == g then 0
    else var i := GroupIndex(gs[1..], g); if i < 0 then -1 else i + 1
  }

  /** `out_schemas.get(g, [])`. */
  function EntriesOf(gs: seq<Group>, g: string): seq<Value>
  {
    var i := GroupIndex(gs, g);
    if i < 0 then [] else gs[i].entries
  }

  predicate HasKey(es: seq<Value>, k: Key)
  {
    exists j :: 0 <= j < |es| && EntryKey(es[j]) == k
  }

  /** `out_schemas.setdefault(g, []).append(e)`: only group g grows, by e at its end. */
  function AppendTo(gs: seq<Group>, g: string, e: Value): (r: seq<Group>)
    ensures forall h :: EntriesOf(r, h) == EntriesOf(gs, h) + (if h == g then [e] else [])
  {
    var i := GroupIndex(gs, g);
    if i >= 0 then
      var r := gs[i := Group(g, gs[i].entries + [e])];
      assert forall h :: GroupIndex(r, h) == GroupIndex(gs, h) by {
        forall h ensures GroupIndex(r, h) == GroupIndex(gs, h) { SameNamesSameIndex(gs, r, h); }
      }
      r
    else
      var r := gs + [Group(g, [e])];
      assert forall h :: GroupIndex(r, h) == (if GroupIndex(gs, h) >= 0 then GroupIndex(gs, h) else if h == g then |gs| else -1) by {
        forall h ensures GroupIndex(r, h) == (if GroupIndex(gs, h) >= 0 then GroupIndex(gs, h) else if h == g then |gs| else -1) {
          GroupIndexAppend(gs, Group(g, [e]), h);
        }
      }
      r
  }

  lemma {:induction false} SameNamesSameIndex(gs: seq<Group>, hs: seq<Group>, g: string)
    requires |gs| == |hs| && forall j :: 0 <= j < |gs| ==> gs[j].name == hs[j].name
    ensures GroupIndex(gs, g) == GroupIndex(hs, g)
  {
    if gs != [] {
      SameNamesSameIndex(gs[1..], hs[1..], g);
    }
  }

  lemma {:induction false} GroupIndexAppend(gs: seq<Group>, x: Group, g: string)
    ensures GroupIndex(gs + [x], g) ==
      if GroupIndex(gs, g) >= 0 then GroupIndex(gs, g) else if x.name == g then |gs| else -1
  {
    if gs != [] {
      assert (gs + [x])[1..] == gs[1..] + [x];
      GroupIndexAppend(gs[1..], x, g);
    }
  }

  /** `entries or []`, for a group value that is a list or falsy. */
  function ListOr(v: Value): seq<Value>
    requires !Truthy(v) || v.JArr?
  {
    if Truthy(v) then v.items else []
  }

  /**
    The lookup `existing_by_group[g]` for one group: each entry under its
    key, a later entry with the same key replacing an earlier one.
  */
  function IndexEntries(es: seq<Value>): (r: map<Key, Value>)
    ensures forall k :: k in r <==> HasKey(es, k)
    ensures forall k :: k in r ==> r[k] in es && EntryKey(r[k]) == k
  {
    if es == [] then map[]
    else
      var init := es[..|es| - 1];
      var last := es[|es| - 1];
      assert forall j :: 0 <= j < |init| ==> init[j] == es[j];
      assert es == init + [last];
      IndexEntries(init)[EntryKey(last) := last]
  }

  /** Of two existing entries with the same key, the later one is the one the scan finds. */
  lemma IndexEntriesLastWins(es: seq<Value>, e: Value)
    ensures IndexEntries(es + [e])[EntryKey(e)] == e
  {
    assert (es + [e])[..|es|] == es;
  }

  /** `existing_by_group`: every group of the existing manifest indexed; a later group of the same name wins. */
  function IndexGroups(ms: seq<Member>): (r: map<string, map<Key, Value>>)
    requires forall i :: 0 <= i < |ms| ==> GroupOk(ms[i].value)
  {
    if ms == [] then map[]
    else
      var last := ms[|ms| - 1];
      assert GroupOk(last.value);
      IndexGroups(ms[..|ms| - 1])[last.key := IndexEntries(ListOr(last.value))]
  }

  /** `existing_by_group.get(g, {}).get(key)`. */
  function Lookup(index: map<string, map<Key, Value>>, g: string, k: Key): Option<Value>
  {
    if g in index && k in index[g] then Some(index[g][k]) else None
  }

  function AliasValues(names: seq<string>): (r: Value)
    ensures r.JArr? && |r.items| == |names| && forall i :: 0 <= i < |names| ==> r.items[i] == JStr(names[i])
  {
    JArr(seq(|names|, i requires 0 <= i < |names| => JStr(names[i])))
  }

  /** A one-member list when `v` is truthy, else nothing: the `if entry.get(k): merged[k] = ...` steps. */
  function OptMember(k: string, v: Value): (r: seq<Member>)
    ensures Truthy(v) ==> r == [Member(k, v)]
    ensures !Truthy(v) ==> r == []
  {
    if Truthy(v) then [Member(k, v)] else []
  }

  /**
    The dict literal `merged` of the scan loop, then primary_key and physics
    appended when truthy.
  */
  function EntryOf(name: Value, aliases: Value, file: Value, namespace: Value, description: Value,
                   compatibility: Value, version: Value, tableName: Value, primaryKey: Value, physics: Value): (r: Value)
    ensures r.JObj? && 8 <= |r.members| <= 10
  {
    JObj([
      Member("name", name), Member("aliases", aliases), Member("file", file), Member("namespace", namespace),
      Member("description", description), Member("compatibility", compatibility), Member("version", version),
      Member("table_name", tableName)] + OptMember("primary_key", primaryKey) + OptMember("physics", physics))
  }

  /** The keys of the entry are pairwise distinct (each has its own length or first letter). */
  lemma EntryOfDistinct(name: Value, aliases: Value, file: Value, namespace: Value, description: Value,
                        compatibility: Value, version: Value, tableName: Value, primaryKey: Value, physics: Value)
    ensures DistinctKeys(EntryOf(name, aliases, file, namespace, description, compatibility, version, tableName, primaryKey, physics).members)
  {
    var ms := EntryOf(name, aliases, file, namespace, description, compatibility, version, tableName, primaryKey, physics).members;
    forall a, b | 0 <= a < b < |ms| ensures ms[a].key != ms[b].key {
      assert |ms[a].key| != |ms[b].key| || ms[a].key[0] != ms[b].key[0];
    }
  }

  /** The eight keys every entry the merge builds from a scan carries. */
  predicate HasEntryFields(r: Value)
  {
    && Has(r, "name") && Has(r, "aliases") && Has(r, "file") && Has(r, "namespace")
    && Has(r, "description") && Has(r, "compatibility") && Has(r, "version") && Has(r, "table_name")
  }

  /** Every field of the entry reads back as the value it was built from. */
  lemma EntryOfFields(name: Value, aliases: Value, file: Value, namespace: Value, description: Value,
                      compatibility: Value, version: Value, tableName: Value, primaryKey: Value, physics: Value)
    ensures var r := EntryOf(name, aliases, file, namespace, description, compatibility, version, tableName, primaryKey, physics);
      && HasEntryFields(r)
      && Get(r, "name") == name && Get(r, "aliases") == aliases && Get(r, "file") == file
      && Get(r, "namespace") == namespace && Get(r, "description") == description
      && Get(r, "compatibility") == compatibility && Get(r, "version") == version && Get(r, "table_name") == tableName
  {
    EntryOfDistinct(name, aliases, file, namespace, description, compatibility, version, tableName, primaryKey, physics);
    var ms := EntryOf(name, aliases, file, namespace, description, compatibility, version, tableName, primaryKey, physics).members;
    GetDistinct(ms, 0); GetDistinct(ms, 1); GetDistinct(ms, 2); GetDistinct(ms, 3);
    GetDistinct(ms, 4); GetDistinct(ms, 5); GetDistinct(ms, 6); GetDistinct(ms, 7);
  }

  /** primary_key and physics are present exactly when truthy, and then hold the given values. */
  lemma EntryOfOptional(name: Value, aliases: Value, file: Value, namespace: Value, description: Value,
                        compatibility: Value, version: Value, tableName: Value, primaryKey: Value, physics: Value)
    ensures var r := EntryOf(name, aliases, file, namespace, description, compatibility, version, tableName, primaryKey, physics);
      && (Has(r, "primary_key") <==> Truthy(primaryKey)) && (Has(r, "primary_key") ==> Get(r, "primary_key") == primaryKey)
      && (Has(r, "physics") <==> Truthy(physics)) && (Has(r, "physics") ==> Get(r, "physics") == physics)
  {
    EntryOfPrimaryKey(name, aliases, file, namespace, description, compatibility, version, tableName, primaryKey, physics);
    EntryOfPhysics(name, aliases, file, namespace, description, compatibility, version, tableName, primaryKey, physics);
  }

  lemma EntryOfPrimaryKey(name: Value, aliases: Value, file: Value, namespace: Value, description: Value,
                        compatibility: Value, version: Value, tableName: Value, primaryKey: Value, physics: Value)
    ensures var r := EntryOf(name, aliases, file, namespace, description, compatibility, version, tableName, primaryKey, physics);
      && (Has(r, "primary_key") <==> Truthy(primaryKey)) && (Has(r, "primary_key") ==> Get(r, "primary_key") == primaryKey)
  {
    EntryOfDistinct(name, aliases, file, namespace, description, compatibility, version, tableName, primaryKey, physics);
    var ms := EntryOf(name, aliases, file, namespace, description, compatibility, version, tableName, primaryKey, physics).members;
    HasIff(ms, "primary_key");
    if Truthy(primaryKey) {
      GetDistinct(ms, 8);
    } else {
      forall i | 0 <= i < |ms| ensures ms[i].key != "primary_key" {
        assert |ms[i].key| != 11 || ms[i].key[0] != 'p';
      }
    }
  }

  lemma EntryOfPhysics(name: Value, aliases: Value, file: Value, namespace: Value, description: Value,
                        compatibility: Value, version: Value, tableName: Value, primaryKey: Value, physics: Value)
    ensures var r := EntryOf(name, aliases, file, namespace, description, compatibility, version, tableName, primaryKey, physics);
      && (Has(r, "physics") <==> Truthy(physics)) && (Has(r, "physics") ==> Get(r, "physics") == physics)
  {
    EntryOfDistinct(name, aliases, file, namespace, description, compatibility, version, tableName, primaryKey, physics);
    var ms := EntryOf(name, aliases, file, namespace, description, compatibility, version, tableName, primaryKey, physics).members;
    HasIff(ms, "physics");
    if Truthy(physics) {
      GetDistinct(ms, |ms| - 1);
    } else {
      forall i | 0 <= i < |ms| ensures ms[i].key != "physics" {
        assert |ms[i].key| != 7 || ms[i].key[0] != 'p';
      }
    }
  }

  /**
    The entry a scanned record becomes. With a truthy existing entry of the
    same key, its description, compatibility, version and table name are
    kept when truthy and its primary_key and physics carried over; otherwise
    the doc, "BACKWARD", "1.0.0" and the derived table name are used.
  */
  function ScannedEntry(info: RecordInfo, existing: Option<Value>, style: Value): (r: Value)
    requires info.name.JStr?
    requires existing.Some? ==> existing.value.JObj?
    ensures r.JObj?
  {
    var name := info.name.s;
    var derived := JStr(DeriveTableName(name, style));
    var matched := existing.Some? && Truthy(existing.value);
    var e := if matched then existing.value else JObj([]);
    EntryOf(
      JStr(CanonicalizeName(name, style)), AliasValues(AliasesFor(name, style)), JStr(info.fileRel), info.namespace,
      if matched then Or(Get(e, "description"), info.doc) else info.doc,
      if matched then Or(Get(e, "compatibility"), JStr("BACKWARD")) else JStr("BACKWARD"),
      if matched then Or(Get(e, "version"), JStr("1.0.0")) else JStr("1.0.0"),
      if matched then Or(Get(e, "table_name"), derived) else derived,
      if matched then Get(e, "primary_key") else JNull,
      if matched then Get(e, "physics") else JNull)
  }

  /** `_entry_key` of a scan-derived entry is the scanned (file, namespace). */
  lemma ScannedEntryKey(info: RecordInfo, existing: Option<Value>, style: Value)
    requires info.name.JStr?
    requires existing.Some? ==> existing.value.JObj?
    ensures EntryKey(ScannedEntry(info, existing, style)) == Key(JStr(info.fileRel), info.namespace)
  {
    var r := ScannedEntry(info, existing, style);
    ScannedEntryFields(info, existing, style);
    GetOrPresent(r, "file", JStr(""));
    GetOrPresent(r, "namespace", JStr(""));
  }

  /** The eight keys every scan-derived entry has, and what each holds. */
  lemma ScannedEntryFields(info: RecordInfo, existing: Option<Value>, style: Value)
    requires info.name.JStr?
    requires existing.Some? ==> existing.value.JObj?
    ensures var r := ScannedEntry(info, existing, style);
      HasEntryFields(r)
    ensures var r := ScannedEntry(info, existing, style);
      && Get(r, "name") == JStr(CanonicalizeName(info.name.s, style))
      && Get(r, "aliases") == AliasValues(AliasesFor(info.name.s, style))
      && Get(r, "file") == JStr(info.fileRel)
      && Get(r, "namespace") == info.namespace
  {
    var name := info.name.s;
    var derived := JStr(DeriveTableName(name, style));
    var matched := existing.Some? && Truthy(existing.value);
    var e := if matched then existing.value else JObj([]);
    EntryOfFields(
      JStr(CanonicalizeName(name, style)), AliasValues(AliasesFor(name, style)), JStr(info.fileRel), info.namespace,
      if matched then Or(Get(e, "description"), info.doc) else info.doc,
      if matched then Or(Get(e, "compatibility"), JStr("BACKWARD")) else JStr("BACKWARD"),
      if matched then Or(Get(e, "version"), JStr("1.0.0")) else JStr("1.0.0"),
      if matched then Or(Get(e, "table_name"), derived) else derived,
      if matched then Get(e, "primary_key") else JNull,
      if matched then Get(e, "physics") else JNull);
  }

  /**
    With a truthy existing entry of the same key, description, compatibility,
    version and table name are kept when truthy, else the doc, "BACKWARD",
    "1.0.0" and the derived name are used; without one, those defaults.
  */
  lemma ScannedEntryPreserves(info: RecordInfo, existing: Option<Value>, style: Value)
    requires info.name.JStr?
    requires existing.Some? ==> existing.value.JObj?
    ensures var r := ScannedEntry(info, existing, style);
      var matched := existing.Some? && Truthy(existing.value);
      && Get(r, "description") == (if matched then Or(Get(existing.value, "description"), info.doc) else info.doc)
      && Get(r, "compatibility") == (if matched then Or(Get(existing.value, "compatibility"), JStr("BACKWARD")) else JStr("BACKWARD"))
      && Get(r, "version") == (if matched then Or(Get(existing.value, "version"), JStr("1.0.0")) else JStr("1.0.0"))
      && Get(r, "table_name") == (if matched then Or(Get(existing.value, "table_name"), JStr(DeriveTableName(info.name.s, style)))
                                  else JStr(DeriveTableName(info.name.s, style)))
  {
    var name := info.name.s;
    var derived := JStr(DeriveTableName(name, style));
    var matched := existing.Some? && Truthy(existing.value);
    var e := if matched then existing.value else JObj([]);
    EntryOfFields(
      JStr(CanonicalizeName(name, style)), AliasValues(AliasesFor(name, style)), JStr(info.fileRel), info.namespace,
      if matched then Or(Get(e, "description"), info.doc) else info.doc,
      if matched then Or(Get(e, "compatibility"), JStr("BACKWARD")) else JStr("BACKWARD"),
      if matched then Or(Get(e, "version"), JStr("1.0.0")) else JStr("1.0.0"),
      if matched then Or(Get(e, "table_name"), derived) else derived,
      if matched then Get(e, "primary_key") else JNull,
      if matched then Get(e, "physics") else JNull);
  }

  /** primary_key and physics appear only when the existing entry has them truthy, and then unchanged. */
  lemma ScannedEntryOptional(info: RecordInfo, existing: Option<Value>, style: Value)
    requires info.name.JStr?
    requires existing.Some? ==> existing.value.JObj?
    ensures var r := ScannedEntry(info, existing, style);
      var matched := existing.Some? && Truthy(existing.value);
      && (Has(r, "primary_key") <==> matched && Truthy(Get(existing.value, "primary_key")))
      && (Has(r, "primary_key") ==> Get(r, "primary_key") == Get(existing.value, "primary_key"))
      && (Has(r, "physics") <==> matched && Truthy(Get(existing.value, "physics")))
      && (Has(r, "physics") ==> Get(r, "physics") == Get(existing.value, "physics"))
  {
    var name := info.name.s;
    var derived := JStr(DeriveTableName(name, style));
    var matched := existing.Some? && Truthy(existing.value);
    var e := if matched then existing.value else JObj([]);
    EntryOfOptional(
      JStr(CanonicalizeName(name, style)), AliasValues(AliasesFor(name, style)), JStr(info.fileRel), info.namespace,
      if matched then Or(Get(e, "description"), info.doc) else info.doc,
      if matched then Or(Get(e, "compatibility"), JStr("BACKWARD")) else JStr("BACKWARD"),
      if matched then Or(Get(e, "version"), JStr("1.0.0")) else JStr("1.0.0"),
      if matched then Or(Get(e, "table_name"), derived) else derived,
      if matched then Get(e, "primary_key") else JNull,
      if matched then Get(e, "physics") else JNull);
  }

  /** The keys of an entry the sort compares, which the source requires to be strings when present. */
  predicate StrOrAbsent(e: Value, k: string)
  {
    !Has(e, k) || Get(e, k).JStr?
  }

  /** An existing entry the merge can handle: a dict whose name, namespace and file are strings when present. */
  predicate EntryOk(e: Value)
  {
    e.JObj? && StrOrAbsent(e, "name") && StrOrAbsent(e, "namespace") && StrOrAbsent(e, "file")
  }

  /**
    An unscanned existing entry as it is retained: a copy, with aliases set
    if absent, the name canonicalised, and a table name derived (from the
    canonical name) if absent.
  */
  function Normalized(e: Value, style: Value): (r: Value)
    requires EntryOk(e)
    ensures r.JObj?
  {
    if !Has(e, "name") then e
    else
      var name := Get(e, "name").s;
      var canonical := CanonicalizeName(name, style);
      var withAliases := SetDefault(e, "aliases", AliasValues(AliasesFor(name, style)));
      var renamed := Set(withAliases, "name", JStr(canonical));
      SetDefault(renamed, "table_name", JStr(DeriveTableName(canonical, style)))
  }

  /** Retention leaves every key but name, aliases and table_name as it was. */
  lemma NormalizedOthers(e: Value, style: Value, k: string, d: Value)
    requires EntryOk(e) && k != "name" && k != "aliases" && k != "table_name"
    ensures GetOr(Normalized(e, style), k, d) == GetOr(e, k, d) && Has(Normalized(e, style), k) == Has(e, k)
  {
    if Has(e, "name") {
      var name := Get(e, "name").s;
      var canonical := CanonicalizeName(name, style);
      var withAliases := SetDefault(e, "aliases", AliasValues(AliasesFor(name, style)));
      var renamed := Set(withAliases, "name", JStr(canonical));
      SetDefaultOther(e, "aliases", AliasValues(AliasesFor(name, style)), k, d);
      SetOther(withAliases, "name", JStr(canonical), k, d);
      SetDefaultOther(renamed, "table_name", JStr(DeriveTableName(canonical, style)), k, d);
    }
  }

  /** Retention keeps the (file, namespace) key of an entry. */
  lemma NormalizedKey(e: Value, style: Value)
    requires EntryOk(e)
    ensures EntryKey(Normalized(e, style)) == EntryKey(e)
  {
    NormalizedOthers(e, style, "file", JStr(""));
    NormalizedOthers(e, style, "namespace", JStr(""));
  }

  /**
    What retention does to an entry: nothing without a name; with one, the
    name is canonicalised, and aliases and table name added only when missing.
  */
  lemma NormalizedFields(e: Value, style: Value)
    requires EntryOk(e)
    ensures !Has(e, "name") ==> Normalized(e, style) == e
    ensures Has(e, "name") ==>
      var r := Normalized(e, style);
      var name := Get(e, "name").s;
      && Get(r, "name") == JStr(CanonicalizeName(name, style))
      && Get(r, "aliases") == GetOr(e, "aliases", AliasValues(AliasesFor(name, style)))
      && Get(r, "table_name") == GetOr(e, "table_name", JStr(DeriveTableName(CanonicalizeName(name, style), style)))
  {
    if Has(e, "name") {
      var name := Get(e, "name").s;
      var canonical := CanonicalizeName(name, style);
      var aliases := AliasValues(AliasesFor(name, style));
      var table := JStr(DeriveTableName(canonical, style));
      var withAliases := SetDefault(e, "aliases", aliases);
      var renamed := Set(withAliases, "name", JStr(canonical));
      SetDefaultOther(renamed, "table_name", table, "name", JNull);
      SetOther(withAliases, "name", JStr(canonical), "aliases", JNull);
      SetDefaultOther(renamed, "table_name", table, "aliases", JNull);
      SetDefaultOther(e, "aliases", aliases, "table_name", table);
      SetOther(withAliases, "name", JStr(canonical), "table_name", table);
    }
  }

  // ---------------------------------------------------------------------------
  // Sorting by (namespace, name, file)
  // ---------------------------------------------------------------------------

  datatype SortKey = SortKey(namespace: string, name: string, file: string)

  function StrField(e: Value, k: string): string
  {
    var v := GetOr(e, k, JStr(""));
    if v.JStr? then v.s else ""
  }

  function SortKeyOf(e: Value): SortKey
  {
    SortKey(StrField(e, "namespace"), StrField(e, "name"), StrField(e, "file"))
  }

  /** Python's `<` on the tuple (namespace, name, file) of strings. */
  predicate KeyLt(a: SortKey, b: SortKey)
  {
    || StrLt(a.namespace, b.namespace)
    || (a.namespace == b.namespace && (StrLt(a.name, b.name) || (a.name == b.name && StrLt(a.file, b.file))))
  }

  lemma KeyLtTransitive(a: SortKey, b: SortKey, c: SortKey)
    requires KeyLt(a, b) && KeyLt(b, c)
    ensures KeyLt(a, c)
  {
    if StrLt(a.namespace, b.namespace) && StrLt(b.namespace, c.namespace) {
      StrLtTransitive(a.namespace, b.namespace, c.namespace);
    } else if a.namespace == b.namespace && b.namespace == c.namespace {
      if StrLt(a.name, b.name) && StrLt(b.name, c.name) {
        StrLtTransitive(a.name, b.name, c.name);
      } else if a.name == b.name && b.name == c.name {
        StrLtTransitive(a.file, b.file, c.file);
      }
    }
  }

  lemma KeyLtIrreflexive(a: SortKey)
    ensures !KeyLt(a, a)
  {
    StrLtIrreflexive(a.namespace);
    StrLtIrreflexive(a.name);
    StrLtIrreflexive(a.file);
  }

  /** No entry is followed by one with a smaller key. */
  predicate SortedByKey(es: seq<Value>)
  {
    forall i, j :: 0 <= i < j < |es| ==> !KeyLt(SortKeyOf(es[j]), SortKeyOf(es[i]))
  }

  /** Insertion after every entry whose key is not greater: the step of a stable sort. */
  function Insert(x: Value, s: seq<Value>): (r: seq<Value>)
    ensures multiset(r) == multiset(s) + multiset{x}
  {
    if s == [] then [x]
    else if KeyLt(SortKeyOf(x), SortKeyOf(s[0])) then [x] + s
    else
      assert s == [s[0]] + s[1..];
      [s[0]] + Insert(x, s[1..])
  }

  lemma {:induction false} InsertSorted(x: Value, s: seq<Value>)
    requires SortedByKey(s)
    ensures SortedByKey(Insert(x, s))
  {
    if s == [] {
    } else if KeyLt(SortKeyOf(x), SortKeyOf(s[0])) {
      var r := [x] + s;
      forall i, j | 0 <= i < j < |r| ensures !KeyLt(SortKeyOf(r[j]), SortKeyOf(r[i])) {
        if i == 0 {
          if KeyLt(SortKeyOf(r[j]), SortKeyOf(x)) {
            if j == 1 {
              KeyLtTransitive(SortKeyOf(s[0]), SortKeyOf(x), SortKeyOf(s[0]));
              KeyLtIrreflexive(SortKeyOf(s[0]));
            } else {
              KeyLtTransitive(SortKeyOf(r[j]), SortKeyOf(x), SortKeyOf(s[0]));
            }
          }
        }
      }
    } else {
      InsertSorted(x, s[1..]);
      var t := Insert(x, s[1..]);
      var r := [s[0]] + t;
      forall i, j | 0 <= i < j < |r| ensures !KeyLt(SortKeyOf(r[j]), SortKeyOf(r[i])) {
        if i == 0 {
          assert r[j] in multiset(t);
          assert r[j] == x || r[j] in s[1..];
        }
      }
    }
  }

  /** `list.sort(key=...)` on one group, as a stable insertion sort. */
  function SortEntries(es: seq<Value>): (r: seq<Value>)
    ensures multiset(r) == multiset(es)
  {
    if es == [] then []
    else
      assert es == es[..|es| - 1] + [es[|es| - 1]];
      Insert(es[|es| - 1], SortEntries(es[..|es| - 1]))
  }

  lemma {:induction false} SortEntriesSorted(es: seq<Value>)
    ensures SortedByKey(SortEntries(es))
  {
    if es != [] {
      SortEntriesSorted(es[..|es| - 1]);
      InsertSorted(es[|es| - 1], SortEntries(es[..|es| - 1]));
    }
  }

  function SortGroup(g: Group): Group
  {
    Group(g.name, SortEntries(g.entries))
  }

  // ---------------------------------------------------------------------------
  // _merge_manifest: the phases, as functions
  // ---------------------------------------------------------------------------

  /** The scan loop: each scanned record appended, as its entry, to its group. */
  function AddScans(index: map<string, map<Key, Value>>, scans: seq<RecordInfo>, style: Value): seq<Group>
    requires forall i :: 0 <= i < |scans| ==> scans[i].name.JStr?
    requires forall g, k :: g in index && k in index[g] ==> index[g][k].JObj?
  {
    if scans == [] then []
    else
      var info := scans[|scans| - 1];
      AppendTo(AddScans(index, scans[..|scans| - 1], style), info.group,
               ScannedEntry(info, Lookup(index, info.group, Key(JStr(info.fileRel), info.namespace)), style))
  }

  /** The retention loop over one existing group's entries: an entry whose key is absent from the group is appended, normalised. */
  function RetainEntries(start: seq<Group>, g: string, es: seq<Value>, style: Value): seq<Group>
    requires forall i :: 0 <= i < |es| ==> EntryOk(es[i])
  {
    if es == [] then start
    else
      var gs := RetainEntries(start, g, es[..|es| - 1], style);
      var e := es[|es| - 1];
      if HasKey(EntriesOf(gs, g), EntryKey(e)) then gs else AppendTo(gs, g, Normalized(e, style))
  }

  /** A group value of the existing manifest the merge can iterate: a list of well-formed entries, or falsy. */
  predicate GroupOk(v: Value)
  {
    !Truthy(v) || (v.JArr? && forall i :: 0 <= i < |v.items| ==> EntryOk(v.items[i]))
  }

  /** The retention loop over all existing groups. */
  function RetainGroups(start: seq<Group>, ms: seq<Member>, style: Value): seq<Group>
    requires forall i :: 0 <= i < |ms| ==> GroupOk(ms[i].value)
  {
    if ms == [] then start
    else
      var last := ms[|ms| - 1];
      assert GroupOk(last.value);
      RetainEntries(RetainGroups(start, ms[..|ms| - 1], style), last.key, ListOr(last.value), style)
  }

  /** The manifest `_merge_manifest` accepts without raising (see "## Left out" on the sort). */
  predicate MergeReady(existing: Value, scans: seq<RecordInfo>)
  {
    ExistingReady(existing) && ScansReady(scans)
  }

  predicate ExistingReady(existing: Value)
  {
    && existing.JObj?
    && (var naming := Get(existing, "naming"); !Truthy(naming) || naming.JObj?)
    && (var schemas := Get(existing, "schemas"); !Truthy(schemas) || schemas.JObj?)
    && (forall m :: m in SchemaMembers(existing) ==> GroupOk(m.value))
  }

  predicate ScansReady(scans: seq<RecordInfo>)
  {
    forall i :: 0 <= i < |scans| ==> scans[i].name.JStr? && scans[i].namespace.JStr?
  }

  function SchemaMembers(existing: Value): seq<Member>
  {
    var schemas := Or(Get(existing, "schemas"), JObj([]));
    if schemas.JObj? then schemas.members else []
  }

  /** `canonical_style`. */
  function Style(existing: Value): Value
  {
    GetOr(Or(Get(existing, "naming"), JObj([])), "canonical", JStr("unsuffixed"))
  }

  lemma IndexHoldsDicts(ms: seq<Member>)
    requires forall i :: 0 <= i < |ms| ==> GroupOk(ms[i].value)
    ensures forall g, k :: g in IndexGroups(ms) && k in IndexGroups(ms)[g] ==> IndexGroups(ms)[g][k].JObj?
  {
    if ms != [] {
      var last := ms[|ms| - 1];
      IndexHoldsDicts(ms[..|ms| - 1]);
      assert GroupOk(last.value);
    }
  }

  /** `existing_by_group` of an existing manifest. */
  function ExistingIndex(existing: Value): (r: map<string, map<Key, Value>>)
    requires ExistingReady(existing)
    ensures forall g, k :: g in r && k in r[g] ==> r[g][k].JObj?
  {
    var ms := SchemaMembers(existing);
    assert forall i :: 0 <= i < |ms| ==> GroupOk(ms[i].value) by {
      assert forall i :: 0 <= i < |ms| ==> ms[i] in ms;
    }
    IndexHoldsDicts(ms);
    IndexGroups(ms)
  }

  /** The groups after the scan loop, the retention loop and the sort. */
  function MergedGroups(existing: Value, scans: seq<RecordInfo>): seq<Group>
    requires MergeReady(existing, scans)
  {
    SortedGroups(UnsortedGroups(existing, scans))
  }

  /** Every group sorted, the group order kept. */
  function SortedGroups(gs: seq<Group>): (r: seq<Group>)
    ensures |r| == |gs| && forall i :: 0 <= i < |gs| ==> r[i] == SortGroup(gs[i])
  {
    seq(|gs|, i requires 0 <= i < |gs| => SortGroup(gs[i]))
  }

  /** `out_schemas` as a dict. */
  function GroupsValue(gs: seq<Group>): (r: Value)
    ensures r.JObj? && |r.members| == |gs|
    ensures forall i :: 0 <= i < |gs| ==> r.members[i] == Member(gs[i].name, JArr(gs[i].entries))
  {
    JObj(seq(|gs|, i requires 0 <= i < |gs| => Member(gs[i].name, JArr(gs[i].entries))))
  }

  /** `_merge_manifest`: version, naming and the merged groups. */
  function Merge(existing: Value, scans: seq<RecordInfo>): Value
    requires MergeReady(existing, scans)
  {
    var naming := GetOr(existing, "naming", JObj([Member("canonical", Style(existing)), Member("alias_patterns", DefaultAliasPatterns)]));
    ManifestOf(GetOr(existing, "version", JInt(1)), naming, GroupsValue(MergedGroups(existing, scans)))
  }

  /** The dict literal `new_manifest`. */
  function ManifestOf(version: Value, naming: Value, schemas: Value): (r: Value)
    ensures r.JObj? && |r.members| == 3
  {
    JObj([Member("version", version), Member("naming", naming), Member("schemas", schemas)])
  }

  lemma ManifestOfFields(version: Value, naming: Value, schemas: Value)
    ensures var r := ManifestOf(version, naming, schemas);
      Get(r, "version") == version && Get(r, "naming") == naming && Get(r, "schemas") == schemas
  {
    var ms := ManifestOf(version, naming, schemas).members;
    forall a, b | 0 <= a < b < |ms| ensures ms[a].key != ms[b].key {
      assert ms[a].key[0] != ms[b].key[0];
    }
    GetDistinct(ms, 0);
    GetDistinct(ms, 1);
    GetDistinct(ms, 2);
  }

  // ---------------------------------------------------------------------------
  // _merge_manifest: what it guarantees
  // ---------------------------------------------------------------------------

  /** Every group's entry list of `gs` is a prefix of the same group's list in `hs`. */
  ghost predicate Grows(gs: seq<Group>, hs: seq<Group>)
  {
    forall h :: |EntriesOf(gs, h)| <= |EntriesOf(hs, h)| && forall j :: 0 <= j < |EntriesOf(gs, h)| ==> EntriesOf(hs, h)[j] == EntriesOf(gs, h)[j]
  }

  lemma GrowsTrans(a: seq<Group>, b: seq<Group>, c: seq<Group>)
    requires Grows(a, b) && Grows(b, c)
    ensures Grows(a, c)
  {
  }

  lemma GrowsMember(gs: seq<Group>, hs: seq<Group>, h: string, x: Value)
    requires Grows(gs, hs) && x in EntriesOf(gs, h)
    ensures x in EntriesOf(hs, h)
  {
    var j :| 0 <= j < |EntriesOf(gs, h)| && EntriesOf(gs, h)[j] == x;
    assert EntriesOf(hs, h)[j] == x;
  }

  lemma GrowsHasKey(gs: seq<Group>, hs: seq<Group>, h: string, k: Key)
    requires Grows(gs, hs) && HasKey(EntriesOf(gs, h), k)
    ensures HasKey(EntriesOf(hs, h), k)
  {
    var j :| 0 <= j < |EntriesOf(gs, h)| && EntryKey(EntriesOf(gs, h)[j]) == k;
    assert EntriesOf(hs, h)[j] == EntriesOf(gs, h)[j];
  }

  lemma AppendToGrows(gs: seq<Group>, g: string, e: Value)
    ensures Grows(gs, AppendTo(gs, g, e))
  {
    var r := AppendTo(gs, g, e);
    forall h ensures |EntriesOf(gs, h)| <= |EntriesOf(r, h)| && forall j :: 0 <= j < |EntriesOf(gs, h)| ==> EntriesOf(r, h)[j] == EntriesOf(gs, h)[j] {
      assert EntriesOf(r, h) == EntriesOf(gs, h) + (if h == g then [e] else []);
    }
  }

  lemma {:induction false} RetainEntriesGrows(start: seq<Group>, g: string, es: seq<Value>, style: Value)
    requires forall i :: 0 <= i < |es| ==> EntryOk(es[i])
    ensures Grows(start, RetainEntries(start, g, es, style))
  {
    if es != [] {
      var init := es[..|es| - 1];
      RetainEntriesGrows(start, g, init, style);
      var gs := RetainEntries(start, g, init, style);
      var e := es[|es| - 1];
      if !HasKey(EntriesOf(gs, g), EntryKey(e)) {
        AppendToGrows(gs, g, Normalized(e, style));
        GrowsTrans(start, gs, AppendTo(gs, g, Normalized(e, style)));
      }
    }
  }

  lemma {:induction false} RetainGroupsGrows(start: seq<Group>, ms: seq<Member>, style: Value)
    requires forall i :: 0 <= i < |ms| ==> GroupOk(ms[i].value)
    ensures Grows(start, RetainGroups(start, ms, style))
  {
    if ms != [] {
      var last := ms[|ms| - 1];
      assert GroupOk(last.value);
      RetainGroupsGrows(start, ms[..|ms| - 1], style);
      var gs := RetainGroups(start, ms[..|ms| - 1], style);
      RetainEntriesGrows(gs, last.key, ListOr(last.value), style);
      GrowsTrans(start, gs, RetainGroups(start, ms, style));
    }
  }

  /** The scan loop appends the entry of every scanned record to its group. */
  lemma {:induction false} AddScansHolds(index: map<string, map<Key, Value>>, scans: seq<RecordInfo>, style: Value, i: int)
    requires forall i :: 0 <= i < |scans| ==> scans[i].name.JStr?
    requires forall g, k :: g in index && k in index[g] ==> index[g][k].JObj?
    requires 0 <= i < |scans|
    ensures var info := scans[i];
      ScannedEntry(info, Lookup(index, info.group, Key(JStr(info.fileRel), info.namespace)), style) in EntriesOf(AddScans(index, scans, style), info.group)
  {
    var init := scans[..|scans| - 1];
    var last := scans[|scans| - 1];
    var gs := AddScans(index, init, style);
    var e := ScannedEntry(last, Lookup(index, last.group, Key(JStr(last.fileRel), last.namespace)), style);
    assert EntriesOf(AppendTo(gs, last.group, e), last.group) == EntriesOf(gs, last.group) + [e];
    if i < |scans| - 1 {
      assert init[i] == scans[i];
      AddScansHolds(index, init, style, i);
      AppendToGrows(gs, last.group, e);
      GrowsMember(gs, AppendTo(gs, last.group, e), scans[i].group,
                  ScannedEntry(scans[i], Lookup(index, scans[i].group, Key(JStr(scans[i].fileRel), scans[i].namespace)), style));
    }
  }

  /** After the retention loop over one group's entries, the group holds an entry under every one of their keys. */
  lemma {:induction false} RetainEntriesKeeps(start: seq<Group>, g: string, es: seq<Value>, style: Value, j: int)
    requires forall i :: 0 <= i < |es| ==> EntryOk(es[i])
    requires 0 <= j < |es|
    ensures HasKey(EntriesOf(RetainEntries(start, g, es, style), g), EntryKey(es[j]))
  {
    var init := es[..|es| - 1];
    var gs := RetainEntries(start, g, init, style);
    var e := es[|es| - 1];
    var r := RetainEntries(start, g, es, style);
    if j == |es| - 1 {
      if !HasKey(EntriesOf(gs, g), EntryKey(e)) {
        var n := Normalized(e, style);
        NormalizedKey(e, style);
        assert EntriesOf(r, g) == EntriesOf(gs, g) + [n];
        assert EntriesOf(r, g)[|EntriesOf(gs, g)|] == n;
      }
    } else {
      assert init[j] == es[j];
      RetainEntriesKeeps(start, g, init, style, j);
      if !HasKey(EntriesOf(gs, g), EntryKey(e)) {
        AppendToGrows(gs, g, Normalized(e, style));
        GrowsHasKey(gs, r, g, EntryKey(es[j]));
      }
    }
  }

  /** After the retention loop over all groups, every existing entry's key is present in its group. */
  lemma {:induction false} RetainGroupsKeeps(start: seq<Group>, ms: seq<Member>, style: Value, i: int, j: int)
    requires forall i :: 0 <= i < |ms| ==> GroupOk(ms[i].value)
    requires 0 <= i < |ms|
    requires GroupOk(ms[i].value) && 0 <= j < |ListOr(ms[i].value)|
    ensures HasKey(EntriesOf(RetainGroups(start, ms, style), ms[i].key), EntryKey(ListOr(ms[i].value)[j]))
  {
    var init := ms[..|ms| - 1];
    var last := ms[|ms| - 1];
    assert GroupOk(last.value);
    var gs := RetainGroups(start, init, style);
    var r := RetainGroups(start, ms, style);
    assert r == RetainEntries(gs, last.key, ListOr(last.value), style);
    if i == |ms| - 1 {
      RetainEntriesKeeps(gs, last.key, ListOr(last.value), style, j);
    } else {
      assert init[i] == ms[i];
      RetainGroupsKeeps(start, init, style, i, j);
      RetainEntriesGrows(gs, last.key, ListOr(last.value), style);
      GrowsHasKey(gs, r, ms[i].key, EntryKey(ListOr(ms[i].value)[j]));
    }
  }

  /** Sorting every group keeps the group order and sorts each entry list. */
  lemma SortedEntriesOf(gs: seq<Group>, h: string)
    ensures EntriesOf(SortedGroups(gs), h) == SortEntries(EntriesOf(gs, h))
  {
    SameNamesSameIndex(gs, SortedGroups(gs), h);
  }

  /** The groups before the sort. */
  function UnsortedGroups(existing: Value, scans: seq<RecordInfo>): seq<Group>
    requires MergeReady(existing, scans)
  {
    var style := Style(existing);
    var ms := SchemaMembers(existing);
    assert forall i :: 0 <= i < |ms| ==> GroupOk(ms[i].value) by {
      assert forall i :: 0 <= i < |ms| ==> ms[i] in ms;
    }
    RetainGroups(AddScans(ExistingIndex(existing), scans, style), ms, style)
  }

  lemma MergedIsSortedUnsorted(existing: Value, scans: seq<RecordInfo>, h: string)
    requires MergeReady(existing, scans)
    ensures EntriesOf(MergedGroups(existing, scans), h) == SortEntries(EntriesOf(UnsortedGroups(existing, scans), h))
  {
    SortedEntriesOf(UnsortedGroups(existing, scans), h);
  }

  lemma HasKeyPermuted(a: seq<Value>, b: seq<Value>, k: Key)
    requires multiset(a) == multiset(b) && HasKey(a, k)
    ensures HasKey(b, k)
  {
    var j :| 0 <= j < |a| && EntryKey(a[j]) == k;
    assert a[j] in multiset(b);
    var j' :| 0 <= j' < |b| && b[j'] == a[j];
  }

  lemma SchemaMembersOk(existing: Value, scans: seq<RecordInfo>)
    requires MergeReady(existing, scans)
    ensures forall i :: 0 <= i < |SchemaMembers(existing)| ==> GroupOk(SchemaMembers(existing)[i].value)
  {
    var ms := SchemaMembers(existing);
    assert forall i :: 0 <= i < |ms| ==> ms[i] in ms;
  }

  /** Every scanned record's entry is in its group of the merged manifest. */
  lemma MergeKeepsScans(existing: Value, scans: seq<RecordInfo>, i: int)
    requires MergeReady(existing, scans) && 0 <= i < |scans|
    ensures var info := scans[i];
      var index := ExistingIndex(existing);
      ScannedEntry(info, Lookup(index, info.group, Key(JStr(info.fileRel), info.namespace)), Style(existing))
        in EntriesOf(MergedGroups(existing, scans), info.group)
  {
    var style := Style(existing);
    var ms := SchemaMembers(existing);
    SchemaMembersOk(existing, scans);
    var index := ExistingIndex(existing);
    var info := scans[i];
    var x := ScannedEntry(info, Lookup(index, info.group, Key(JStr(info.fileRel), info.namespace)), style);
    var added := AddScans(index, scans, style);
    AddScansHolds(index, scans, style, i);
    RetainGroupsGrows(added, ms, style);
    GrowsMember(added, UnsortedGroups(existing, scans), info.group, x);
    MergedIsSortedUnsorted(existing, scans, info.group);
    assert x in multiset(EntriesOf(UnsortedGroups(existing, scans), info.group));
  }

  /** Nothing is dropped: every existing entry's (file, namespace) key is present in its group of the merged manifest. */
  lemma MergeKeepsExisting(existing: Value, scans: seq<RecordInfo>, m: Member, e: Value)
    requires MergeReady(existing, scans) && m in SchemaMembers(existing)
    requires GroupOk(m.value) && e in ListOr(m.value)
    ensures HasKey(EntriesOf(MergedGroups(existing, scans), m.key), EntryKey(e))
  {
    var style := Style(existing);
    var ms := SchemaMembers(existing);
    SchemaMembersOk(existing, scans);
    var i :| 0 <= i < |ms| && ms[i] == m;
    var j :| 0 <= j < |ListOr(m.value)| && ListOr(m.value)[j] == e;
    RetainGroupsKeeps(AddScans(ExistingIndex(existing), scans, style), ms, style, i, j);
    MergedIsSortedUnsorted(existing, scans, m.key);
    HasKeyPermuted(EntriesOf(UnsortedGroups(existing, scans), m.key), EntriesOf(MergedGroups(existing, scans), m.key), EntryKey(e));
  }

  /** Every group of the merged manifest is sorted by (namespace, name, file). */
  lemma MergeGroupsSorted(existing: Value, scans: seq<RecordInfo>, h: string)
    requires MergeReady(existing, scans)
    ensures SortedByKey(EntriesOf(MergedGroups(existing, scans), h))
  {
    MergedIsSortedUnsorted(existing, scans, h);
    SortEntriesSorted(EntriesOf(UnsortedGroups(existing, scans), h));
  }

  /** The groups as a dict: group h maps to its entry list exactly when the merge produced it. */
  lemma GroupsValueLookup(gs: seq<Group>, h: string)
    ensures Has(GroupsValue(gs), h) <==> GroupIndex(gs, h) >= 0
    ensures Has(GroupsValue(gs), h) ==> Get(GroupsValue(gs), h) == JArr(EntriesOf(gs, h))
  {
    var ms := GroupsValue(gs).members;
    var g := GroupIndex(gs, h);
    var r := IndexOf(ms, h);
    if g >= 0 {
      assert ms[g].key == h;
    }
    if r >= 0 {
      assert gs[r].name == h;
    }
    assert r == g;
  }

  /** The new manifest keeps the existing version (default 1) and naming block, and holds the merged groups. */
  lemma MergeShape(existing: Value, scans: seq<RecordInfo>)
    requires MergeReady(existing, scans)
    ensures var r := Merge(existing, scans);
      && r.JObj? && |r.members| == 3
      && Get(r, "version") == GetOr(existing, "version", JInt(1))
      && Get(r, "naming") == GetOr(existing, "naming", JObj([Member("canonical", Style(existing)), Member("alias_patterns", DefaultAliasPatterns)]))
      && Get(r, "schemas") == GroupsValue(MergedGroups(existing, scans))
  {
    var naming := GetOr(existing, "naming", JObj([Member("canonical", Style(existing)), Member("alias_patterns", DefaultAliasPatterns)]));
    ManifestOfFields(GetOr(existing, "version", JInt(1)), naming, GroupsValue(MergedGroups(existing, scans)));
  }

  /** A merged entry that came from the scan loop. */
  ghost predicate FromScan(x: Value, h: string, index: map<string, map<Key, Value>>, scans: seq<RecordInfo>, style: Value)
    requires forall i :: 0 <= i < |scans| ==> scans[i].name.JStr?
    requires forall g, k :: g in index && k in index[g] ==> index[g][k].JObj?
  {
    exists i :: 0 <= i < |scans| && scans[i].group == h
      && x == ScannedEntry(scans[i], Lookup(index, h, Key(JStr(scans[i].fileRel), scans[i].namespace)), style)
  }

  /** A merged entry that came from the retention loop. */
  ghost predicate FromExisting(x: Value, h: string, ms: seq<Member>, style: Value)
  {
    exists i, j :: 0 <= i < |ms| && ms[i].key == h && GroupOk(ms[i].value) && 0 <= j < |ListOr(ms[i].value)|
      && x == Normalized(ListOr(ms[i].value)[j], style)
  }

  /** The scan loop adds nothing but scanned records' entries: the index of the record an entry came from. */
  lemma {:induction false} AddScansOrigin(index: map<string, map<Key, Value>>, scans: seq<RecordInfo>, style: Value, h: string, x: Value)
    returns (i: int)
    requires forall i :: 0 <= i < |scans| ==> scans[i].name.JStr?
    requires forall g, k :: g in index && k in index[g] ==> index[g][k].JObj?
    requires x in EntriesOf(AddScans(index, scans, style), h)
    ensures 0 <= i < |scans| && scans[i].group == h
    ensures x == ScannedEntry(scans[i], Lookup(index, h, Key(JStr(scans[i].fileRel), scans[i].namespace)), style)
  {
    var n := |scans| - 1;
    var init := scans[..n];
    var last := scans[n];
    var gs := AddScans(index, init, style);
    var e := ScannedEntry(last, Lookup(index, last.group, Key(JStr(last.fileRel), last.namespace)), style);
    assert EntriesOf(AppendTo(gs, last.group, e), h) == EntriesOf(gs, h) + (if h == last.group then [e] else []);
    if x in EntriesOf(gs, h) {
      i := AddScansOrigin(index, init, style, h, x);
      PrefixIndex(scans, n, i);
    } else {
      i := n;
    }
  }

  lemma FromScanAt(x: Value, h: string, index: map<string, map<Key, Value>>, scans: seq<RecordInfo>, style: Value, i: int)
    requires forall i :: 0 <= i < |scans| ==> scans[i].name.JStr?
    requires forall g, k :: g in index && k in index[g] ==> index[g][k].JObj?
    requires 0 <= i < |scans| && scans[i].group == h
    requires x == ScannedEntry(scans[i], Lookup(index, h, Key(JStr(scans[i].fileRel), scans[i].namespace)), style)
    ensures FromScan(x, h, index, scans, style)
  {
  }

  /** The retention loop over one group adds nothing but normalised entries of that group: the index of the one it came from. */
  lemma {:induction false} RetainEntriesOrigin(start: seq<Group>, g: string, es: seq<Value>, style: Value, h: string, x: Value)
    returns (j: int)
    requires forall i :: 0 <= i < |es| ==> EntryOk(es[i])
    requires x in EntriesOf(RetainEntries(start, g, es, style), h)
    ensures x !in EntriesOf(start, h) ==> h == g && 0 <= j < |es| && x == Normalized(es[j], style)
  {
    if es == [] {
      return 0;
    }
    var n := |es| - 1;
    var init := es[..n];
    var gs := RetainEntries(start, g, init, style);
    var e := es[n];
    var added := !HasKey(EntriesOf(gs, g), EntryKey(e));
    if added {
      assert EntriesOf(AppendTo(gs, g, Normalized(e, style)), h) == EntriesOf(gs, h) + (if h == g then [Normalized(e, style)] else []);
    }
    if x in EntriesOf(gs, h) {
      j := RetainEntriesOrigin(start, g, init, style, h, x);
      if x !in EntriesOf(start, h) {
        PrefixIndex(es, n, j);
      }
    } else {
      j := n;
    }
  }

  lemma {:induction false} RetainGroupsOrigin(start: seq<Group>, ms: seq<Member>, style: Value, h: string, x: Value)
    requires forall i :: 0 <= i < |ms| ==> GroupOk(ms[i].value)
    requires x in EntriesOf(RetainGroups(start, ms, style), h)
    ensures x in EntriesOf(start, h) || FromExisting(x, h, ms, style)
  {
    if ms != [] {
      var init := ms[..|ms| - 1];
      var last := ms[|ms| - 1];
      assert GroupOk(last.value);
      var gs := RetainGroups(start, init, style);
      var j := RetainEntriesOrigin(gs, last.key, ListOr(last.value), style, h, x);
      if x in EntriesOf(gs, h) {
        RetainGroupsOrigin(start, init, style, h, x);
        if x !in EntriesOf(start, h) {
          var i, j :| 0 <= i < |init| && init[i].key == h && GroupOk(init[i].value) && 0 <= j < |ListOr(init[i].value)|
            && x == Normalized(ListOr(init[i].value)[j], style);
          PrefixIndex(ms, |ms| - 1, i);
        }
      } else {
        assert ms[|ms| - 1] == last;
        assert 0 <= |ms| - 1 < |ms| && ms[|ms| - 1].key == h && GroupOk(ms[|ms| - 1].value) && 0 <= j < |ListOr(ms[|ms| - 1].value)|;
      }
    }
  }

  /**
    Nothing is invented: every entry of a merged group is the entry of a
    scanned record of that group, or a normalised existing entry of that group.
  */
  lemma MergeOnlyKnownEntries(existing: Value, scans: seq<RecordInfo>, h: string, x: Value)
    requires MergeReady(existing, scans)
    requires x in EntriesOf(MergedGroups(existing, scans), h)
    ensures FromScan(x, h, ExistingIndex(existing), scans, Style(existing)) || FromExisting(x, h, SchemaMembers(existing), Style(existing))
  {
    var style := Style(existing);
    var ms := SchemaMembers(existing);
    SchemaMembersOk(existing, scans);
    var added := AddScans(ExistingIndex(existing), scans, style);
    MergedIsSortedUnsorted(existing, scans, h);
    assert x in multiset(EntriesOf(UnsortedGroups(existing, scans), h));
    RetainGroupsOrigin(added, ms, style, h, x);
    if x in EntriesOf(added, h) {
      var i := AddScansOrigin(ExistingIndex(existing), scans, style, h, x);
      FromScanAt(x, h, ExistingIndex(existing), scans, style, i);
    }
  }

  /** Retaining one entry into a group that does not exist yet creates the group with that entry, normalised. */
  lemma RetainFirst(start: seq<Group>, g: string, e: Value, style: Value)
    requires EntryOk(e) && GroupIndex(start, g) < 0
    ensures EntriesOf(RetainEntries(start, g, [e], style), g) == [Normalized(e, style)]
  {
    assert [e][..0] == [];
    assert RetainEntries(start, g, [], style) == start;
    assert RetainEntries(start, g, [e], style) == AppendTo(start, g, Normalized(e, style));
  }

  /** An entry whose key the group already holds is skipped by the retention loop. */
  lemma RetainSkips(start: seq<Group>, g: string, es: seq<Value>, e: Value, style: Value)
    requires EntryOk(e) && forall i :: 0 <= i < |es| ==> EntryOk(es[i])
    requires HasKey(EntriesOf(RetainEntries(start, g, es, style), g), EntryKey(e))
    ensures RetainEntries(start, g, es + [e], style) == RetainEntries(start, g, es, style)
  {
    assert (es + [e])[..|es|] == es;
    assert (es + [e])[|es|] == e;
  }

  lemma KeyOfSingleton(x: Value, k: Key)
    requires EntryKey(x) == k
    ensures HasKey([x], k)
  {
    assert [x][0] == x;
  }

  /**
    Existing entries of one group sharing a (file, namespace) key collapse:
    only the first is retained.
  */
  lemma SameKeyCollapses(start: seq<Group>, g: string, e1: Value, e2: Value, style: Value)
    requires EntryOk(e1) && EntryOk(e2) && EntryKey(e1) == EntryKey(e2)
    requires GroupIndex(start, g) < 0
    ensures EntriesOf(RetainEntries(start, g, [e1, e2], style), g) == [Normalized(e1, style)]
  {
    var n1 := Normalized(e1, style);
    RetainFirst(start, g, e1, style);
    NormalizedKey(e1, style);
    var gs := RetainEntries(start, g, [e1], style);
    assert EntriesOf(gs, g) == [n1];
    KeyOfSingleton(n1, EntryKey(e2));
    assert [e1] + [e2] == [e1, e2];
    RetainSkips(start, g, [e1], e2, style);
  }

  // ---------------------------------------------------------------------------
  // _merge_manifest: the loops
  // ---------------------------------------------------------------------------

  /**
    `_merge_manifest`: build `existing_by_group`, append every scanned
    record's entry, retain the unscanned existing entries, sort each group,
    and assemble the new manifest.
  */
  method MergeManifest(existing: Value, scans: seq<RecordInfo>) returns (r: Value)
    requires MergeReady(existing, scans)
    ensures r == Merge(existing, scans)
  {
    var style := GetOr(Or(Get(existing, "naming"), JObj([])), "canonical", JStr("unsuffixed"));
    var ms := SchemaMembers(existing);
    assert forall i :: 0 <= i < |ms| ==> GroupOk(ms[i].value) by {
      assert forall i :: 0 <= i < |ms| ==> ms[i] in ms;
    }

    var index := BuildIndex(ms);
    assert index == ExistingIndex(existing);

    var out := AddScanned(index, scans, style);
    out := RetainUnscanned(out, ms, style);
    assert out == UnsortedGroups(existing, scans);

    out := SortEachGroup(out);
    assert out == MergedGroups(existing, scans);

    var naming := GetOr(existing, "naming", JObj([Member("canonical", style), Member("alias_patterns", DefaultAliasPatterns)]));
    r := ManifestOf(GetOr(existing, "version", JInt(1)), naming, GroupsValue(out));
  }

  /** The first loop of `_merge_manifest`: `existing_by_group`, one `group_map` per group. */
  method BuildIndex(ms: seq<Member>) returns (index: map<string, map<Key, Value>>)
    requires forall i :: 0 <= i < |ms| ==> GroupOk(ms[i].value)
    ensures index == IndexGroups(ms)
  {
    index := map[];
    var gi := 0;
    while gi < |ms|
      invariant 0 <= gi <= |ms|
      invariant index == IndexGroups(ms[..gi])
    {
      assert GroupOk(ms[gi].value);
      var entries := ListOr(ms[gi].value);
      var groupMap: map<Key, Value> := map[];
      var ei := 0;
      while ei < |entries|
        invariant 0 <= ei <= |entries|
        invariant groupMap == IndexEntries(entries[..ei])
      {
        PrefixInit(entries, ei);
        groupMap := groupMap[EntryKey(entries[ei]) := entries[ei]];
        ei := ei + 1;
      }
      PrefixAll(entries);
      PrefixInit(ms, gi);
      index := index[ms[gi].key := groupMap];
      gi := gi + 1;
    }
    PrefixAll(ms);
  }

  /** The scan loop of `_merge_manifest`. */
  method AddScanned(index: map<string, map<Key, Value>>, scans: seq<RecordInfo>, style: Value) returns (out: seq<Group>)
    requires forall i :: 0 <= i < |scans| ==> scans[i].name.JStr?
    requires forall g, k :: g in index && k in index[g] ==> index[g][k].JObj?
    ensures out == AddScans(index, scans, style)
  {
    out := [];
    var i := 0;
    while i < |scans|
      invariant 0 <= i <= |scans|
      invariant out == AddScans(index, scans[..i], style)
    {
      var info := scans[i];
      var existingEntry := if info.group in index && Key(JStr(info.fileRel), info.namespace) in index[info.group]
        then Some(index[info.group][Key(JStr(info.fileRel), info.namespace)]) else None;
      assert existingEntry == Lookup(index, info.group, Key(JStr(info.fileRel), info.namespace));
      PrefixInit(scans, i);
      out := AppendTo(out, info.group, ScannedEntry(info, existingEntry, style));
      i := i + 1;
    }
    PrefixAll(scans);
  }

  /** The retention loop of `_merge_manifest`. */
  method RetainUnscanned(start: seq<Group>, ms: seq<Member>, style: Value) returns (out: seq<Group>)
    requires forall i :: 0 <= i < |ms| ==> GroupOk(ms[i].value)
    ensures out == RetainGroups(start, ms, style)
  {
    out := start;
    var gi := 0;
    while gi < |ms|
      invariant 0 <= gi <= |ms|
      invariant out == RetainGroups(start, ms[..gi], style)
    {
      assert GroupOk(ms[gi].value);
      PrefixInit(ms, gi);
      out := RetainGroupEntries(out, ms[gi].key, ListOr(ms[gi].value), style);
      gi := gi + 1;
    }
    PrefixAll(ms);
  }

  /** The retention loop over one existing group: entries whose key the group lacks are appended, normalised. */
  method RetainGroupEntries(before: seq<Group>, group: string, entries: seq<Value>, style: Value) returns (out: seq<Group>)
    requires forall i :: 0 <= i < |entries| ==> EntryOk(entries[i])
    ensures out == RetainEntries(before, group, entries, style)
  {
    out := before;
    var ei := 0;
    while ei < |entries|
      invariant 0 <= ei <= |entries|
      invariant out == RetainEntries(before, group, entries[..ei], style)
    {
      var e := entries[ei];
      PrefixInit(entries, ei);
      if !HasKey(EntriesOf(out, group), EntryKey(e)) {
        out := AppendTo(out, group, Normalized(e, style));
      }
      ei := ei + 1;
    }
    PrefixAll(entries);
  }

  /** The sort loop of `_merge_manifest`: each group's list sorted in place. */
  method SortEachGroup(gs: seq<Group>) returns (out: seq<Group>)
    ensures out == SortedGroups(gs)
  {
    out := gs;
    var k := 0;
    while k < |out|
      invariant 0 <= k <= |out| == |gs|
      invariant forall j :: 0 <= j < k ==> out[j] == SortGroup(gs[j])
      invariant forall j :: k <= j < |out| ==> out[j] == gs[j]
    {
      out := out[k := Group(out[k].name, SortEntries(out[k].entries))];
      k := k + 1;
    }
  }
}
