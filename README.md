# cosmos-schemas manifest and schema tools, modelled in Dafny

The repository keeps its Avro schemas (`*.avsc` files, JSON) under `schemas/`.
`schemas/manifest.yml` lists them per domain, with a file path, a name, a
version and a table name for each. Seven small command-line tools keep the two
consistent. Each is modelled in its own module:

| module | tool | what it does |
|---|---|---|
| `NormalizeManifest` | `tools/normalize_manifest.py` | scans the schema files and merges them into the manifest: canonical names, aliases, table names; existing metadata kept |
| `AddDefaults` | `tools/add_defaults_to_schemas.py` | adds a `default` to every record field that lacks one, by type |
| `AuditDefaults` | `tools/audit_schema_defaults.py` | a nullable union field must default to null, and no other field may |
| `SchemaAudit` | `tools/schema_audit.py` | compares the manifest's files with the files on disk, group by group (keep / remove / missing) |
| `SetAvroVersions` | `tools/set_avro_versions.py` | stamps a top-level `version` into every schema file that lacks one |
| `ValidateTableNames` | `tools/validate_table_names.py` | every manifest entry needs a name and a table name, and table names must be unique |
| `ValidateSchemas` | `tools/validate_schemas.py` and its byte-identical copy `schemas/tools/validate_schemas.py` | every listed file exists, parses, and embeds the version the manifest declares |

`JsonValue` is shared by all of them. It holds parsed JSON/YAML documents
(`Value`), Python's dict operations over them, Python's `==` (`PyEq`), truthiness,
`str()`/`repr()`, and a file system as a map from path to parsed content.

Conventions:
- A situation where the Python code crashes (a `KeyError`, `TypeError` or
  `AttributeError` on a malformed document) becomes a `requires`.
- An error the code reports on purpose becomes a value: a `Result`, an
  `Option`, or an error datatype.
- Loops are methods with invariants. Each is proved equal to a function over
  the prefix of its input, and the properties are proved about that function.
- Where the code mutates a dict in place, the model returns the new value.

## Model

| member | source | states |
|---|---|---|
| NormalizeManifest.CanonicalizeName | tools/normalize_manifest.py:121-125 | under "unsuffixed", a name ending in "Schema" loses exactly that suffix (result + "Schema" == name); any other name or style is unchanged |
| NormalizeManifest.CanonicalizeNotIdempotent | tools/normalize_manifest.py:121-125 | only one suffix goes: "XSchemaSchema" becomes "XSchema", and only a second call gives "X" |
| NormalizeManifest.DeriveTableName | tools/normalize_manifest.py:128-140 | the table name has no ASCII upper-case letter |
| NormalizeManifest.DeriveTableNameSuffixed | tools/normalize_manifest.py:128-140 | under every style, a name ending in one "Schema" loses exactly that suffix and is lower-cased |
| NormalizeManifest.DeriveTableNameIdempotent | tools/normalize_manifest.py:128-140 | deriving a table name from a table name gives it back |
| NormalizeManifest.DeriveTableNameStar | tools/normalize_manifest.py:132-135 | the documented examples: "Star" and "StarSchema" both give "star" |
| NormalizeManifest.DeriveTableNamePlain | tools/normalize_manifest.py:128-140 | a name without the suffix is only lower-cased |
| NormalizeManifest.AliasesFor | tools/normalize_manifest.py:143-148 | the canonical name comes first; the list holds exactly {canonical, canonical+"Schema", name}, without repeats, the rest sorted |
| NormalizeManifest.CompleteNaming | tools/normalize_manifest.py:49-54 | a missing or dict naming policy gets "canonical" (default "unsuffixed") and "alias_patterns" (default ["{name}", "{name}Schema"]), keeping values already there |
| NormalizeManifest.ReadManifest | tools/normalize_manifest.py:41-55 | an absent file gives {version: 1, schemas: {}}; otherwise a missing "schemas" becomes {} and a present one is kept, "naming" is the completed policy (`data.get("naming") or {}` with its two defaults), and every other key is kept |
| NormalizeManifest.CompleteNamingIdempotent | tools/normalize_manifest.py:49-54 | completing a naming policy twice is completing it once |
| NormalizeManifest.ReadManifestIdempotent | tools/normalize_manifest.py:41-55 | reading back a manifest that was read changes nothing |
| NormalizeManifest.RecordsIn | tools/normalize_manifest.py:79-82 | the candidates of a list are exactly its items that are record dicts |
| NormalizeManifest.Candidates | tools/normalize_manifest.py:75-82 | a record dict is the one candidate and any other dict gives none; a list gives exactly its record items, with its first record item first; any other value gives none |
| NormalizeManifest.FirstPreferred | tools/normalize_manifest.py:86-92 | the index of the first candidate named like the file stem (with or without "Schema"), or -1 when none is |
| NormalizeManifest.PickPrimaryRecord | tools/normalize_manifest.py:69-92 | None exactly when there is no candidate; otherwise the first preferred candidate, or the first candidate when none is preferred |
| NormalizeManifest.Basename | tools/normalize_manifest.py:86 | the name is the suffix of the path after its last '/', or the whole path when it has none |
| NormalizeManifest.Stem | tools/normalize_manifest.py:86 | `Path.stem` is a prefix of the name: the part before the last '.' when that dot is neither first nor last, else the whole name |
| NormalizeManifest.StemExample | tools/normalize_manifest.py:86 | the stem of "MagneticFieldSchema.avsc" is "MagneticFieldSchema" |
| NormalizeManifest.Posix | tools/normalize_manifest.py:109 | every backslash becomes '/', and every other character is kept |
| NormalizeManifest.ScanFile | tools/normalize_manifest.py:97-117 | a record is found only for a parsed file below a group directory; its group is the first path component and its path is relative to the repository root; name, namespace ("" when absent) and doc are those of the primary record; a parsed file with a record candidate always yields one |
| NormalizeManifest.Scan | tools/normalize_manifest.py:95-118 | the scan yields exactly the records of the files that yield one, at most one per file |
| NormalizeManifest.AppendTo | tools/normalize_manifest.py:172-236 | `setdefault(g, []).append(e)` grows group g by e at its end and leaves every other group alone |
| NormalizeManifest.EntryKey | tools/normalize_manifest.py:150-152 | `_entry_key`: the (file, namespace) pair, each defaulting to ""; no contract of its own, `NormalizeManifest.ScannedEntryKey` and `NormalizeManifest.NormalizedKey` state which key the merged entries have |
| NormalizeManifest.IndexEntries | tools/normalize_manifest.py:164-166 | the lookup has a key exactly when some entry has it, and maps it to an entry with that key |
| NormalizeManifest.IndexEntriesLastWins | tools/normalize_manifest.py:165-166 | of two existing entries with one key, the later one is found |
| NormalizeManifest.EntryOf | tools/normalize_manifest.py:197-212 | the merged entry is a dict of the eight fixed keys plus up to two optional ones |
| NormalizeManifest.EntryOfFields | tools/normalize_manifest.py:197-206 | each of the eight fixed keys reads back as the value it was built from |
| NormalizeManifest.EntryOfOptional | tools/normalize_manifest.py:209-212 | primary_key and physics are present exactly when truthy, and then hold the given values |
| NormalizeManifest.ScannedEntryKey | tools/normalize_manifest.py:173-201 | the entry of a scanned record is keyed by the scanned (file, namespace) |
| NormalizeManifest.ScannedEntryFields | tools/normalize_manifest.py:176-201 | name is the canonical name, aliases are `_aliases_for`, and file and namespace are the scanned ones |
| NormalizeManifest.ScannedEntryPreserves | tools/normalize_manifest.py:180-195 | with a truthy existing entry, description, compatibility, version and table name are kept when truthy; otherwise they fall back to the doc, "BACKWARD", "1.0.0" and the derived name |
| NormalizeManifest.ScannedEntryOptional | tools/normalize_manifest.py:186-212 | primary_key and physics appear only when the existing entry has them truthy, and then unchanged |
| NormalizeManifest.NormalizedOthers | tools/normalize_manifest.py:224-235 | retaining an unscanned entry leaves every key except name, aliases and table_name as it was |
| NormalizeManifest.NormalizedKey | tools/normalize_manifest.py:219-224 | a retained entry keeps its (file, namespace) key |
| NormalizeManifest.NormalizedFields | tools/normalize_manifest.py:226-235 | an entry without a name is copied unchanged; otherwise the name is canonicalised, and aliases and table_name are added only when missing |
| NormalizeManifest.Insert | tools/normalize_manifest.py:240-242 | one insertion step of the stable sort adds exactly the element (as a multiset) |
| NormalizeManifest.InsertSorted | tools/normalize_manifest.py:240-242 | inserting into a sorted group keeps it sorted by (namespace, name, file) |
| NormalizeManifest.SortEntries | tools/normalize_manifest.py:240-242 | sorting a group is a permutation of its entries |
| NormalizeManifest.SortEntriesSorted | tools/normalize_manifest.py:240-242 | a sorted group is ordered by (namespace, name, file) |
| NormalizeManifest.ExistingIndex | tools/normalize_manifest.py:162-167 | `existing_by_group` holds only dicts |
| NormalizeManifest.SortedGroups | tools/normalize_manifest.py:239-242 | every group is sorted, and the group order is kept |
| NormalizeManifest.GroupsValue | tools/normalize_manifest.py:170-253 | `out_schemas` as a dict: one member per group, in order, holding its entry list |
| NormalizeManifest.ManifestOf | tools/normalize_manifest.py:244-254 | the new manifest is a dict of three keys |
| NormalizeManifest.ManifestOfFields | tools/normalize_manifest.py:244-254 | version, naming and schemas read back as given |
| NormalizeManifest.AddScansHolds | tools/normalize_manifest.py:171-214 | the scan loop appends the entry of every scanned record to its group |
| NormalizeManifest.RetainEntriesKeeps | tools/normalize_manifest.py:218-236 | after the retention loop over a group, it holds an entry under every key of that group's existing entries |
| NormalizeManifest.RetainGroupsKeeps | tools/normalize_manifest.py:217-236 | after the retention loop over all groups, every existing entry's key is present in its group |
| NormalizeManifest.SortedEntriesOf | tools/normalize_manifest.py:239-242 | each group after sorting is the sort of the group before |
| NormalizeManifest.Merge | tools/normalize_manifest.py:156-255 | `_merge_manifest` as a function; no contract of its own, `NormalizeManifest.MergeKeepsScans`, `NormalizeManifest.MergeKeepsExisting`, `NormalizeManifest.MergeOnlyKnownEntries`, `NormalizeManifest.MergeGroupsSorted` and `NormalizeManifest.MergeShape` state what it returns, and `NormalizeManifest.MergeManifest` computes it |
| NormalizeManifest.MergeKeepsScans | tools/normalize_manifest.py:156-255 | every scanned record's entry is in its group of the merged manifest |
| NormalizeManifest.MergeKeepsExisting | tools/normalize_manifest.py:216-236 | nothing is silently dropped: every existing entry's (file, namespace) key is present in its group after the merge |
| NormalizeManifest.MergeGroupsSorted | tools/normalize_manifest.py:238-242 | every group of the merged manifest is sorted by (namespace, name, file) |
| NormalizeManifest.GroupsValueLookup | tools/normalize_manifest.py:253 | group h is in the new "schemas" exactly when the merge produced it, mapping to its entry list |
| NormalizeManifest.MergeShape | tools/normalize_manifest.py:244-254 | the new manifest keeps the existing version (default 1) and naming block, and holds the merged groups |
| NormalizeManifest.AddScansOrigin | tools/normalize_manifest.py:171-214 | every entry the scan loop adds is the entry of a scanned record of that group |
| NormalizeManifest.RetainEntriesOrigin | tools/normalize_manifest.py:218-236 | every entry the retention loop adds is a normalised existing entry of that group |
| NormalizeManifest.RetainGroupsOrigin | tools/normalize_manifest.py:217-236 | after the retention loop, each entry was there before or is a normalised existing entry |
| NormalizeManifest.MergeOnlyKnownEntries | tools/normalize_manifest.py:156-255 | nothing is invented: each merged entry is a scanned record's entry or a normalised existing entry of its group |
| NormalizeManifest.RetainFirst | tools/normalize_manifest.py:221-236 | retaining into a group that does not exist yet creates it with that entry, normalised |
| NormalizeManifest.RetainSkips | tools/normalize_manifest.py:221-223 | an entry whose key the group already holds is skipped |
| NormalizeManifest.SameKeyCollapses | tools/normalize_manifest.py:217-236 | two existing entries of one group with the same key collapse to the first |
| NormalizeManifest.MergeManifest | tools/normalize_manifest.py:156-255 | `_merge_manifest` computes the merge specification |
| NormalizeManifest.BuildIndex | tools/normalize_manifest.py:162-167 | the first loop builds `existing_by_group` |
| NormalizeManifest.AddScanned | tools/normalize_manifest.py:170-214 | the scan loop computes the scanned groups |
| NormalizeManifest.RetainUnscanned | tools/normalize_manifest.py:217-236 | the retention loop over all groups |
| NormalizeManifest.RetainGroupEntries | tools/normalize_manifest.py:218-236 | the retention loop over one group's entries |
| NormalizeManifest.SortEachGroup | tools/normalize_manifest.py:239-242 | the sort loop sorts every group |
| AddDefaults.FirstBranch | tools/add_defaults_to_schemas.py:47-52 | the type a union's default comes from: its first branch, through nested unions; never a list |
| AddDefaults.DefaultForType | tools/add_defaults_to_schemas.py:26-75 | `_default_for_type` as a function: a string looked up in the primitive table, a union by its first branch (None when that is "null"), a dict by its "type"; it has no contract of its own, and `AddDefaults.NoDefaultIff` and `AddDefaults.DefaultFitsAvro` state what it returns |
| AddDefaults.NoDefaultIff | tools/add_defaults_to_schemas.py:26-75 | a union's default is its first branch's; there is no default exactly when that branch (after nested unions) has no entry in the tables, such as "null", or is an enum whose first symbol is null |
| AddDefaults.DefaultFitsAvro | tools/add_defaults_to_schemas.py:26-75 | any default produced for a type the table does not simplify has the JSON kind Avro demands for it |
| AddDefaults.InjectRecord | tools/add_defaults_to_schemas.py:78-117 | a schema without "fields" is left as it is; a dict stays a dict |
| AddDefaults.InjectField | tools/add_defaults_to_schemas.py:89-114 | a field keeps any default it has; a field without one gets one exactly when its type has a non-null default; its type is walked |
| AddDefaults.InjectType | tools/add_defaults_to_schemas.py:96-114 | walking a type keeps a dict's "type" and a union's length, and leaves strings and scalars alone |
| AddDefaults.EnumAndFixedUntouched | tools/add_defaults_to_schemas.py:103-115 | enum and fixed types, and every dict kind other than array, map and record, are never entered |
| AddDefaults.ReplaceExtends | tools/add_defaults_to_schemas.py:88-114 | replacing an existing key's value by an extension of it is an extension |
| AddDefaults.AppendDefaultThenReplaceExtends | tools/add_defaults_to_schemas.py:89-114 | adding a missing "default" and then extending another key is an extension |
| AddDefaults.InjectAddsOnlyDefaults | tools/add_defaults_to_schemas.py:78-117 | the injector adds "default" keys and changes nothing else anywhere in the tree |
| AddDefaults.FieldAddsOnlyDefaults | tools/add_defaults_to_schemas.py:88-114 | the same for one field |
| AddDefaults.TypeAddsOnlyDefaults | tools/add_defaults_to_schemas.py:96-114 | the same for one type |
| AddDefaults.ComplexDefaultReads | tools/add_defaults_to_schemas.py:55-72 | a dict type's default depends only on its "type" and "symbols" |
| AddDefaults.WalkKeepsOtherKeys | tools/add_defaults_to_schemas.py:103-114 | the walk rewrites only "fields", "items" and "values" of a dict |
| AddDefaults.RecordKeepsOtherKeys | tools/add_defaults_to_schemas.py:85-88 | the walk rewrites only "fields" of a record |
| AddDefaults.DefaultUnchangedByWalk | tools/add_defaults_to_schemas.py:26-75 | the walk does not change the default a type gets |
| AddDefaults.InjectIdempotent | tools/add_defaults_to_schemas.py:78-117 | `_inject_defaults` is idempotent: a second run finds nothing to add |
| AddDefaults.FieldIdempotent | tools/add_defaults_to_schemas.py:88-114 | the same for one field |
| AddDefaults.TypeIdempotent | tools/add_defaults_to_schemas.py:96-114 | the same for one type |
| AddDefaults.InjectDefaults | tools/add_defaults_to_schemas.py:78-117 | returns the injected schema, and `modified` exactly when it differs from the input |
| AddDefaults.InjectIntoFields | tools/add_defaults_to_schemas.py:88-114 | the field loop computes the injected field list, and `modified` exactly when it changed |
| AddDefaults.InjectIntoField | tools/add_defaults_to_schemas.py:89-114 | one loop pass computes the injected field, and `changed` exactly when it changed |
| AddDefaults.InjectIntoBranches | tools/add_defaults_to_schemas.py:98-101 | the loop over a union's branches walks every dict branch as a record, and `modified` exactly when some branch changed |
| AddDefaults.InjectIntoType | tools/add_defaults_to_schemas.py:96-114 | the type dispatch computes the walked type, and `modified` exactly when it changed |
| AddDefaults.ProcessFile | tools/add_defaults_to_schemas.py:120-126 | a file is rewritten, with the injected schema, exactly when injection changed it; otherwise the files are unchanged |
| AddDefaults.SecondRunUnchanged | tools/add_defaults_to_schemas.py:120-126 | after a run over a file, a second run reports no change |
| AddDefaults.NullFirstUnionGetsNoDefault | tools/add_defaults_to_schemas.py:47-93 | a field typed as a null-first union gets no default (the table returns None, which is never written) |
| AuditDefaults.IsNullable | tools/audit_schema_defaults.py:45-51 | `_is_nullable` as a predicate: a list with a "null" or {"type": "null"} branch anywhere; no contract of its own, `AuditDefaults.OnlyListsNullable` and `AuditDefaults.NullableBeyondFirstBranch` state its consequences |
| AuditDefaults.NullableBeyondFirstBranch | tools/audit_schema_defaults.py:45-51 | nullability looks at every branch: ["string", "null"] is nullable while its injected default is "" |
| AuditDefaults.OnlyListsNullable | tools/audit_schema_defaults.py:45-51 | only a list can be nullable; "null" itself and {"type": "null"} alone are not |
| AuditDefaults.LeftStripDots | tools/audit_schema_defaults.py:69 | `lstrip('.')` keeps the longest suffix after leading dots |
| AuditDefaults.RightStripDots | tools/audit_schema_defaults.py:69 | `rstrip('.')` keeps the longest prefix before trailing dots |
| AuditDefaults.StripDotsMiddle | tools/audit_schema_defaults.py:69 | `strip('.')` keeps a contiguous middle part |
| AuditDefaults.StripDotsEnds | tools/audit_schema_defaults.py:69 | what `strip('.')` keeps has no dot at either end |
| AuditDefaults.StripDotsRemovesDots | tools/audit_schema_defaults.py:69 | what `strip('.')` removes is dots only |
| AuditDefaults.StripDotsExample | tools/audit_schema_defaults.py:69 | ".a." strips to "a" |
| AuditDefaults.FieldProblemsAtMostOne | tools/audit_schema_defaults.py:71-81 | a field gives one problem exactly when nullability and a null default disagree, of the matching kind and naming the field; otherwise none |
| AuditDefaults.SchemaProblems | tools/audit_schema_defaults.py:54-81 | `_check_schema` on one file's content as a function; no contract of its own, `AuditDefaults.InvalidJsonOnly`, `AuditDefaults.RecordsProblemsAppend` and `AuditDefaults.FieldProblemsAtMostOne` state its problems, and `AuditDefaults.CheckSchema` computes it |
| AuditDefaults.InvalidJsonOnly | tools/audit_schema_defaults.py:55-60 | an unparsable file gives exactly one problem, and nothing in it is checked |
| AuditDefaults.NonRecordsSkipped | tools/audit_schema_defaults.py:65-67 | definitions that are not records contribute nothing |
| AuditDefaults.RecordsProblemsAppend | tools/audit_schema_defaults.py:65-81 | the problems of a definition list are the problems of its parts, concatenated in order |
| AuditDefaults.ListFileEveryElement | tools/audit_schema_defaults.py:63-65 | every element of a list file is examined |
| AuditDefaults.SingleDefinition | tools/audit_schema_defaults.py:63 | a file holding one definition is checked as that definition |
| AuditDefaults.FieldsProblemsCount | tools/audit_schema_defaults.py:70-81 | at most one problem per field, each of the two field kinds |
| AuditDefaults.CheckSchema | tools/audit_schema_defaults.py:54-81 | `_check_schema` appends the problems the specification gives for the file |
| AuditDefaults.CheckDefinitions | tools/audit_schema_defaults.py:65-81 | the record loop appends the problems of every definition |
| AuditDefaults.CheckField | tools/audit_schema_defaults.py:71-81 | one field-loop pass appends that field's problems |
| AuditDefaults.CheckDefinition | tools/audit_schema_defaults.py:66-81 | one record-loop pass appends that definition's problems, none for a non-record |
| AuditDefaults.CheckFields | tools/audit_schema_defaults.py:70-81 | the field loop appends the problems of every field |
| AuditDefaults.EntryFiles | tools/audit_schema_defaults.py:40-41 | one path per entry, in order |
| AuditDefaults.FilesOfComplete | tools/audit_schema_defaults.py:37-42 | every entry's file is listed |
| AuditDefaults.ExitStatus | tools/audit_schema_defaults.py:94-101 | the exit status is 1 exactly when there is a problem, else 0 |
| AuditDefaults.MissingFileNotChecked | tools/audit_schema_defaults.py:89-91 | a missing file is reported and not checked |
| AuditDefaults.AuditFailsIff | tools/audit_schema_defaults.py:84-101 | the run fails exactly when some listed file has a problem |
| AuditDefaults.Audit | tools/audit_schema_defaults.py:86-101 | `main`'s loop computes the problems of every listed file, and the exit status from them |
| AuditDefaults.AuditMain | tools/audit_schema_defaults.py:30-101 | a missing manifest ends the run with status 1 before any check |
| AuditDefaults.InjectedNullFirstStillFlagged | tools/audit_schema_defaults.py:71-76 | a null-first union field that went through the default injector is still reported as missing its null default |
| SchemaAudit.GroupFilesIff | tools/schema_audit.py:25-27 | a path is in a group's set exactly when some `*.avsc` file below the directory resolves to it |
| SchemaAudit.GroupFilesEmptyIff | tools/schema_audit.py:25-28 | a group's set is empty exactly when its directory holds no `*.avsc` file |
| SchemaAudit.DiskBuckets | tools/schema_audit.py:20-30 | `find_avsc_files` as a function; no contract of its own, `SchemaAudit.DiskBucketsGroups` and `SchemaAudit.DiskBucketsComplete` state both directions of what it returns |
| SchemaAudit.DiskBucketsGroups | tools/schema_audit.py:20-30 | a group with no files is left out; each group present comes from a directory of that name and holds its files |
| SchemaAudit.DiskBucketsComplete | tools/schema_audit.py:20-30 | every directory holding an `*.avsc` file is a group with exactly its files |
| SchemaAudit.FindAvscFiles | tools/schema_audit.py:20-30 | `find_avsc_files` computes the disk groups |
| SchemaAudit.LoadManifest | tools/schema_audit.py:11-17 | a document that is not a dict or has no "schemas" is an error; otherwise a truthy "schemas" is returned as it is and a falsy one as {} |
| SchemaAudit.LoadManifestReload | tools/schema_audit.py:11-17 | writing the loaded groups back under "schemas" and loading again gives them unchanged |
| SchemaAudit.EntryPathsIff | tools/schema_audit.py:41-45 | a path is in a group's set exactly when some entry has a truthy "file" resolving to it |
| SchemaAudit.ManifestPaths | tools/schema_audit.py:36-46 | `manifest_entries_to_paths` as a function; no contract of its own, `SchemaAudit.ManifestPathsKeys` and `SchemaAudit.ManifestPathsOf` state its keys and each group's set |
| SchemaAudit.ManifestPathsKeys | tools/schema_audit.py:37-40 | every manifest group gets a path set, possibly empty, and no other group does |
| SchemaAudit.ManifestPathsOf | tools/schema_audit.py:36-46 | each group's set is that of its own entries |
| SchemaAudit.ManifestEntriesToPaths | tools/schema_audit.py:33-46 | `manifest_entries_to_paths` computes the manifest groups |
| SchemaAudit.SortedListUnique | tools/schema_audit.py:67-71 | `sorted` of a set is determined by the set |
| SchemaAudit.ListedEmpty | tools/schema_audit.py:118 | a listing is empty exactly when its set is |
| SchemaAudit.SortStrings | tools/schema_audit.py:67-71 | `sorted(x)` lists x without repeats, in ascending order |
| SchemaAudit.AuditGroup | tools/schema_audit.py:64-71 | keep, remove and missing are the sorted intersection, manifest-only and disk-only sets of the group |
| SchemaAudit.AuditGroups | tools/schema_audit.py:61-71 | the loop over the sorted union of the groups builds the three dicts |
| SchemaAudit.Audit | tools/schema_audit.py:49-73 | a malformed manifest is an error; otherwise the report of the disk groups against the manifest groups |
| SchemaAudit.ReportPartitions | tools/schema_audit.py:67-71 | the three lists of a group are disjoint; keep and missing make up the disk set, keep and remove the manifest set |
| SchemaAudit.AuditedGroups | tools/schema_audit.py:61 | the audited groups are exactly the disk groups and the manifest groups |
| SchemaAudit.ExitStatus | tools/schema_audit.py:117-119 | the exit status is 0 or 1 |
| SchemaAudit.ExitStatusIff | tools/schema_audit.py:117-119 | the run fails exactly when the disk set and the manifest set of some group differ |
| SchemaAudit.ExampleDisk | tools/schema_audit.py:20-30 | a directory "a" with X.avsc and Y.avsc gives group "a" with both resolved paths |
| SchemaAudit.ExampleManifest | tools/schema_audit.py:33-46 | a manifest entry "schemas/a/X.avsc" under "a" resolves against the project root |
| SchemaAudit.ReportOfOneGroup | tools/schema_audit.py:63-71 | with X in both sets and Y on disk only, X is kept, Y missing, nothing removed |
| SchemaAudit.KeepAndMissingExample | tools/schema_audit.py:49-73 | the same, end to end from a directory listing and a manifest |
| SetAvroVersions.EntryPairsIff | tools/set_avro_versions.py:52-60 | a (file, version) pair is recorded exactly for entries whose file is a str and whose version is a str, int or float, with `str(version)` |
| SetAvroVersions.MapOfKeys | tools/set_avro_versions.py:59-60 | a path is a key exactly when some recorded entry names it |
| SetAvroVersions.MapOfLastWins | tools/set_avro_versions.py:60 | a path maps to the version of the last entry naming it |
| SetAvroVersions.ManifestVersions | tools/set_avro_versions.py:34-63 | `load_manifest_versions` as a function; no contract of its own, `SetAvroVersions.EntryPairsIff`, `SetAvroVersions.MapOfKeys`, `SetAvroVersions.MapOfLastWins` and `SetAvroVersions.NoManifestNoVersions` state what it returns, and `SetAvroVersions.LoadManifestVersions` computes it |
| SetAvroVersions.NoManifestNoVersions | tools/set_avro_versions.py:40-43 | an absent manifest path, or one that does not exist, gives no versions |
| SetAvroVersions.LoadManifestVersions | tools/set_avro_versions.py:34-63 | `load_manifest_versions` computes the version map; a read or parse failure is caught and gives none |
| SetAvroVersions.LoadGroup | tools/set_avro_versions.py:52-60 | the inner loop stores every recorded entry of one group |
| SetAvroVersions.CandidatesShape | tools/set_avro_versions.py:73-91 | the candidates are the path, plus "schemas/" + its file name when the path holds no "schemas/" |
| SetAvroVersions.DetermineVersionForFile | tools/set_avro_versions.py:66-97 | a candidate in the map gives its version; when none is, the default |
| SetAvroVersions.ResolvesNonEmpty | tools/set_avro_versions.py:66-97 | whichever candidate matches, the version is non-empty when every version involved is |
| SetAvroVersions.StampSettles | tools/set_avro_versions.py:121-127 | a dict stamped with a non-empty version no longer needs one; no other key changes |
| SetAvroVersions.ProcessAvscFile | tools/set_avro_versions.py:100-138 | a file is rewritten exactly when it parses to a dict with no (or a None or "") version and this is not a dry run; only "version" is set, to the resolved version |
| SetAvroVersions.ProcessFiles | tools/set_avro_versions.py:180-187 | every file is scanned; outside a dry run each listed file that needs a version is stamped with a version it resolves to, and every other file is left as it was; with no path listed twice, the modified count is the number of listed files that need a version; a dry run, or a list where no file needs a version, changes nothing and counts zero; with no empty version in play, no listed file needs a version afterwards |
| SetAvroVersions.Visit | tools/set_avro_versions.py:183-187 | one pass of the loop: the file visited is stamped exactly when it needs one and this is not a dry run, and counted exactly then; the loop's invariant moves one file on |
| SetAvroVersions.CountIsCard | tools/set_avro_versions.py:183-187 | with no path listed twice, counting the listed files that need a version one by one gives the size of the set of such files |
| ValidateTableNames.CountedIn | tools/validate_table_names.py:59-63 | only dict entries are counted, at most one per entry |
| ValidateTableNames.BucketIndex | tools/validate_table_names.py:80-81 | the position of a table name in the duplicate dict, or -1 when it has none |
| ValidateTableNames.CountTabled | tools/validate_table_names.py:76-77 | the with-table count never exceeds the number of entries |
| ValidateTableNames.FoldCounts | tools/validate_table_names.py:55-82 | the loop counts every entry, counts those with a table name, and gives the per-entry errors |
| ValidateTableNames.FoldBuckets | tools/validate_table_names.py:79-82 | the duplicate dict lists every table name once, in first-use order, each with all its owners in encounter order |
| ValidateTableNames.FoldSpec | tools/validate_table_names.py:55-82 | the loop keeps both its counters, its errors and its duplicate dict to their specifications |
| ValidateTableNames.CountsAgree | tools/validate_table_names.py:63-95 | the entries missing a name or a table name are exactly those counted as missing a table name |
| ValidateTableNames.DupErrorsIff | tools/validate_table_names.py:85-89 | a duplicate error is reported for a table name exactly when it has more than one owner, with those owners |
| ValidateTableNames.EntryErrorsNoDuplicates | tools/validate_table_names.py:67-75 | the entry loop reports only missing names and missing table names |
| ValidateTableNames.DuplicateReported | tools/validate_table_names.py:79-89 | a table name shared by several entries gets a duplicate error listing every owner in order; one used once gets none |
| ValidateTableNames.DuplicateReportedOnce | tools/validate_table_names.py:85-89 | no table name is reported as duplicate twice |
| ValidateTableNames.DupErrorsDistinct | tools/validate_table_names.py:85-89 | the duplicate loop reports distinct table names |
| ValidateTableNames.SharedTwoOwners | tools/validate_table_names.py:79-82 | two entries with one table name give it at least two owners |
| ValidateTableNames.TwoOwnersShared | tools/validate_table_names.py:79-82 | a table name with two owners is used by two entries |
| ValidateTableNames.DistinctIffNoShared | tools/validate_table_names.py:79-89 | the table names are pairwise distinct exactly when none has two owners |
| ValidateTableNames.AllTabledIff | tools/validate_table_names.py:71-77 | every entry is counted as having a table name exactly when every entry has a name and a table name |
| ValidateTableNames.EntryErrorsEmptyIff | tools/validate_table_names.py:67-75 | there is no per-entry error exactly when every entry has a name and a table name |
| ValidateTableNames.DupErrorsEmptyIff | tools/validate_table_names.py:85-89 | there is no duplicate error exactly when no table name has two owners |
| ValidateTableNames.Errors | tools/validate_table_names.py:31-97 | the error list of `validate_table_names`, per-entry errors then duplicates; no contract of its own, `ValidateTableNames.ErrorsEmptyIff`, `ValidateTableNames.DuplicateReported` and `ValidateTableNames.EntryErrorsNoDuplicates` state it |
| ValidateTableNames.ErrorsEmptyIff | tools/validate_table_names.py:31-97 | validation passes exactly when every entry has a name and a table name and all table names are distinct |
| ValidateTableNames.ValidateTableNames | tools/validate_table_names.py:31-97 | an absent manifest and an unparsable one each give their single error; otherwise the error list and both counters of the specification |
| ValidateTableNames.ReportDuplicates | tools/validate_table_names.py:85-89 | the duplicate loop gives one error per table name with more than one owner |
| ValidateTableNames.CountEntries | tools/validate_table_names.py:55-82 | the nested entry loop computes the fold over every counted entry |
| ValidateTableNames.CountGroup | tools/validate_table_names.py:59-82 | the inner loop over one group's entries continues the fold |
| ValidateTableNames.ExitStatus | tools/validate_table_names.py:100-110 | the exit status is 1 exactly when there is an error, else 0 |
| ValidateSchemas.EntryProblem | tools/validate_schemas.py:53-73 | an entry gives at most one problem, and none exactly when its file exists, parses and embeds the declared version |
| ValidateSchemas.Validate | tools/validate_schemas.py:38-81 | an absent manifest and an unparsable one each give their load error; otherwise the problems of every listed entry, in manifest order |
| ValidateSchemas.ValidateGroup | tools/validate_schemas.py:49-80 | the entries of one domain are checked in turn |
| ValidateSchemas.ValidateFile | tools/validate_schemas.py:53-73 | `_validate_file` appends the entry's problem, if any |
| ValidateSchemas.EntryProblemListed | tools/validate_schemas.py:76-81 | every problem of an entry is in the list |
| ValidateSchemas.ProblemHasEntry | tools/validate_schemas.py:76-81 | every problem in the list belongs to some entry |
| ValidateSchemas.Problems | tools/validate_schemas.py:76-81 | the problems of `validate()`, entry by entry; no contract of its own, `ValidateSchemas.EntryProblemListed`, `ValidateSchemas.ProblemHasEntry` and `ValidateSchemas.ProblemsEmptyIff` state it |
| ValidateSchemas.ProblemsEmptyIff | tools/validate_schemas.py:76-81 | there is no problem exactly when every listed file exists, parses and embeds the declared version |
| ValidateSchemas.MissingFileReported | tools/validate_schemas.py:55-57 | an absent file is reported as missing, under its domain, name and path |
| ValidateSchemas.InvalidJsonReported | tools/validate_schemas.py:59-63 | a file that does not parse is reported as invalid JSON under its path |
| ValidateSchemas.VersionMismatchReported | tools/validate_schemas.py:66-73 | a parsed file whose version differs under Python's `!=` is reported with both versions |
| ValidateSchemas.ManifestEntriesIff | tools/validate_schemas.py:47-50 | the pairs yielded are exactly each domain's entries paired with that domain |
| ValidateSchemas.ExitZeroIff | tools/validate_schemas.py:84-93 | the exit status is 0 exactly when the manifest loads and every listed file passes |
| ValidateSchemas.QuotedVersionMismatches | tools/validate_schemas.py:67-69 | a quoted "1.0" in the manifest does not match the number 1.0 in the file |
| ValidateSchemas.IntVersionMatchesFloat | tools/validate_schemas.py:67-69 | the integer 1 in the manifest matches the float 1.0 in the file |
| ValidateSchemas.ListFileUsesFirst | tools/validate_schemas.py:65-67 | a list file is compared through its first definition only |
| ValidateSchemas.AbsentVersionsAgree | tools/validate_schemas.py:67-69 | an entry and a file that both lack a version agree (None == None) |
| JsonValue.PyEqString | tools/add_defaults_to_schemas.py:49 | comparing with a string literal holds only for that very string |
| JsonValue.PyEqNone | tools/audit_schema_defaults.py:72 | `x is None` and `x == None` agree on parsed values |
| JsonValue.SetDefault | tools/normalize_manifest.py:227-229 | `setdefault` adds the key only when absent and keeps an existing value |
| JsonValue.Str | tools/validate_table_names.py:82 | formatting a value in an f-string: scalars print as `str()`, None as "None" |
| JsonValue.StrLtTotal | tools/schema_audit.py:67-71 | Python's string order is total |
| JsonValue.StrLtTransitive | tools/schema_audit.py:67-71 | Python's string order is transitive |

## Left out

- Command-line parsing, printing, the report wording and the summary counts printed by each `main` are not modelled. Messages are modelled by their kind and their subject only.
- Reading YAML and JSON is not modelled. A file is absent, unparsable or a parsed `Value`. A floating-point number is kept as the text Python's `repr` would print.
- Directory traversal (`iterdir`, `rglob`) is not modelled: the listing is an input. Its order is the order given.
- `Path.resolve()`, `as_posix()` and `relative_to()` are treated as the identity on path strings. `/` on paths is `JsonValue.Join`. Symbolic links and `..` are not modelled.
- `UnicodeDecodeError`, `IsADirectoryError` and other I/O failures are not modelled.
- Writing files back (`json.dumps`, `yaml.safe_dump`) is modelled as replacing the parsed value. Formatting and key order on disk are not modelled.
- NormalizeManifest: the change detection and `--write` branch of `main` (tools/normalize_manifest.py:285-315) compare YAML texts and are not modelled.
- NormalizeManifest: the directory listing behind `_iter_avsc_files` (`iterdir`, `rglob`) is an input, a list of (path, parsed content) pairs in traversal order. `NormalizeManifest.ScannedPath` models the skip set {"tools", "__pycache__"} and the `*.avsc` match on that list.
- NormalizeManifest.MergeManifest: the precondition asks every scanned `namespace` and every existing entry's `name`, `namespace` and `file` to be a string. `_merge_manifest` also accepts a null namespace (`"namespace": null` in a record, or `namespace:` in YAML) and a null file, as long as the sort at tools/normalize_manifest.py:239-242 never compares a None with a string; a YAML number there is in the same position. Whether the sort raises then depends on which pairs in a group it compares, so these values are left out rather than modelled.
- NormalizeManifest.DeriveTableName: only ASCII letters are lower-cased. Python's `lower()` also lower-cases other Unicode letters ("ÄtherSchema" gives "äther"); Avro names are ASCII, so only the ASCII case is modelled.
- AddDefaults: `main` (tools/add_defaults_to_schemas.py:129-148) is not modelled. It only walks the files and counts them, and it exits 1 when the directory or every schema is missing.
- SetAvroVersions: the exit status 2 for a missing schemas directory (tools/set_avro_versions.py:174-176) is not modelled.
- SetAvroVersions.DetermineVersionForFile: when several candidates are in the map with different versions, the model does not say which one wins. The result is one of their versions. Python tries the candidates in set iteration order, which depends on string hash randomisation.
- JsonValue.FloatIntEq: a float equals an int only when its repr is the int's digits followed by ".0". Floats of 1e16 and above print in exponent form ("1e+16"), so `10**16 == 1e16`, true in Python, is false in the model; this affects the version comparison of `ValidateSchemas.EntryProblem`.
- AuditDefaults.Printable: only scalars and None are printed in problem messages. A list or dict record name, which Python would print through `repr`, is excluded by the precondition.
- JsonValue.Repr: only backslash, the quote character, newline, carriage return and tab are escaped. The other escapes of Python's `repr` for non-printable characters are not modelled.
- ValidateTableNames.ValidateTableNames: buckets are keyed by the parsed value. In Python the keys 1, 1.0 and True are one dict key, and a NaN key is never found again. The model groups table names only when they are the same value of the same kind.
- ValidateTableNames.ValidateTableNames: a list or dict table name raises `TypeError` (unhashable) in Python. It is excluded by the precondition.
- tools/generate_docs.py is not part of this model.

## Where the code and its documentation differ

The model follows the code in each of these cases:
- `_canonicalize_name` removes one "Schema" suffix, so it is not idempotent: "XSchemaSchema" becomes "XSchema" (`NormalizeManifest.CanonicalizeNotIdempotent`). `_derive_table_name` strips a second suffix, so table names are idempotent (`NormalizeManifest.DeriveTableNameIdempotent`).
- `_merge_manifest` is described as never dropping existing entries. It keeps every existing (file, namespace) key, but two existing entries of one group with the same key collapse into the first (`NormalizeManifest.SameKeyCollapses`).
- `_default_for_type` returns None for a union whose first branch is "null". The injector never writes a None default, so such a field gets no `"default": null` (`AddDefaults.NullFirstUnionGetsNoDefault`). `audit_schema_defaults.py` then still reports the field (`AuditDefaults.InjectedNullFirstStillFlagged`).
- The injector takes a union's default from its first branch, while the audit calls a union nullable when any branch is null (`AuditDefaults.NullableBeyondFirstBranch`).
