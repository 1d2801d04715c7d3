/**
  The default injector: every field of an Avro record schema that has no
  `default` gets the canonical default of its type, computed from the type
  node alone (a type node is a string for a primitive or named type, a list
  for a union, a dictionary with a "type" key for a complex type).

  The source mutates the parsed JSON tree in place; here the walk returns the
  new tree, and the methods keep the source's loops and its `modified` flag.
*/
module AddDefaults {
  import opened JsonValue

  // ---------------------------------------------------------------------------
  // _default_for_type
  // ---------------------------------------------------------------------------

  /**
    The type nodes `_default_for_type` can evaluate without raising: a union
    must have a first branch (`avro_type[0]` raises on `[]`), recursively, and
    the `symbols` of an enum, when truthy, must be indexable by 0.
  */
  predicate Resolvable(t: Value)
    decreases Size(t)
  {
    match t
    case JArr(bs) => |bs| > 0 && (SizeSeqElement(bs, 0); Resolvable(bs[0]))
    case JObj(_) =>
      Get(t, "type") == JStr("enum") ==> SymbolsIndexable(GetOr(t, "symbols", JArr([])))
    case _ => true
  }

  predicate SymbolsIndexable(symbols: Value)
  {
    !Truthy(symbols) || symbols.JArr? || symbols.JStr?
  }

  /** The table for primitive type names; None (JNull) for every other name. */
  function PrimitiveDefault(name: string): Value
  {
    if name == "string" || name == "bytes" then JStr("")
    else if name == "boolean" then JBool(false)
    else if name == "int" || name == "long" then JInt(0)
    else if name == "float" || name == "double" then JFloat("0.0")
    else JNull
  }

  /** The default for a dictionary type node, by its "type" entry. */
  function ComplexDefault(t: Value): Value
    requires t.JObj? && Resolvable(t)
  {
    var name := Get(t, "type");
    if name == JStr("array") then JArr([])
    else if name == JStr("map") then JObj([])
    else if name == JStr("enum") then
      var symbols := GetOr(t, "symbols", JArr([]));
      if !Truthy(symbols) then JStr("")
      else if symbols.JArr? then symbols.items[0]
      else JStr([symbols.s[0]])
    else if name == JStr("fixed") then JStr("")
    else if name == JStr("record") then JObj([])
    else JNull
  }

  /**
    `_default_for_type`. JNull stands for Python's None, which the source
    returns both for "the default is null" and for "no default is known".
    The test `avro_type[0] == "null"` is Python equality with a string, which
    holds only for that string (JsonValue.PyEqString).
  */
  function DefaultForType(t: Value): Value
    requires Resolvable(t)
    decreases Size(t)
  {
    match t
    case JStr(name) => PrimitiveDefault(name)
    case JArr(bs) =>
      if bs[0] == JStr("null") then JNull
      else (SizeSeqElement(bs, 0); DefaultForType(bs[0]))
    case JObj(_) => ComplexDefault(t)
    case _ => JNull
  }

  /** The type a union stands for when picking its default: its first branch, followed through nested unions. */
  function FirstBranch(t: Value): (e: Value)
    requires Resolvable(t)
    ensures !e.JArr? && Resolvable(e)
    decreases Size(t)
  {
    if t.JArr? then (SizeSeqElement(t.items, 0); FirstBranch(t.items[0])) else t
  }

  /** The type names and complex kinds that have an entry in the source's tables. */
  predicate KnownKind(e: Value)
  {
    || (e.JStr? && e.s in {"string", "bytes", "boolean", "int", "long", "float", "double"})
    || (e.JObj? && Get(e, "type") in {JStr("array"), JStr("map"), JStr("enum"), JStr("fixed"), JStr("record")})
  }

  /** An enum whose first symbol is null: the table lookup then also yields None. */
  predicate NullFirstSymbol(e: Value)
  {
    e.JObj? && Get(e, "type") == JStr("enum") &&
    var symbols := GetOr(e, "symbols", JArr([]));
    symbols.JArr? && |symbols.items| > 0 && symbols.items[0] == JNull
  }

  /**
    The default of a union is the default of its first branch, and the result
    is None exactly when that branch is "null", is not in the tables, or is an
    enum whose first symbol is null.
  */
  lemma {:induction false} NoDefaultIff(t: Value)
    requires Resolvable(t)
    ensures DefaultForType(t) == DefaultForType(FirstBranch(t))
    ensures DefaultForType(t) == JNull <==> !KnownKind(FirstBranch(t)) || NullFirstSymbol(FirstBranch(t))
    decreases Size(t)
  {
    if t.JArr? {
      SizeSeqElement(t.items, 0);
      NoDefaultIff(t.items[0]);
    } else if t.JObj? {
      var symbols := GetOr(t, "symbols", JArr([]));
      if Get(t, "type") == JStr("enum") && Truthy(symbols) && symbols.JStr? {
        assert JStr([symbols.s[0]]) != JNull;
      }
    }
  }

  /**
    Section "Complex Types / Records" of the Apache Avro 1.11 specification:
    the JSON kind a field default must have for each schema type; for a union,
    the default corresponds to the first schema of the union.
  */
  predicate AvroDefaultFits(t: Value, v: Value)
    decreases Size(t)
  {
    match t
    case JStr(name) =>
      if name == "null" then v == JNull
      else if name == "boolean" then v.JBool?
      else if name == "int" || name == "long" then v.JInt?
      else if name == "float" || name == "double" then v.JInt? || v.JFloat?
      else if name == "bytes" || name == "string" then v.JStr?
      else false
    case JArr(bs) => |bs| > 0 && (SizeSeqElement(bs, 0); AvroDefaultFits(bs[0], v))
    case JObj(_) =>
      var name := Get(t, "type");
      var symbols := GetOr(t, "symbols", JArr([]));
      if name == JStr("array") then v.JArr?
      else if name == JStr("map") || name == JStr("record") then v.JObj?
      else if name == JStr("enum") then v.JStr? && symbols.JArr? && v in symbols.items
      else if name == JStr("fixed") then v.JStr? && Get(t, "size") == JInt(|v.s|)
      else false
    case _ => false
  }

  /** The defaults the source knowingly simplifies: enums without a string first symbol, and fixed types. */
  predicate Simplified(e: Value)
  {
    e.JObj? &&
    ((Get(e, "type") == JStr("fixed")) ||
     (Get(e, "type") == JStr("enum") &&
      var symbols := GetOr(e, "symbols", JArr([]));
      !(symbols.JArr? && |symbols.items| > 0 && symbols.items[0].JStr?)))
  }

  /** Whenever a default is produced for a type the source does not simplify, it has the kind Avro demands. */
  lemma {:induction false} DefaultFitsAvro(t: Value)
    requires Resolvable(t)
    requires DefaultForType(t) != JNull && !Simplified(FirstBranch(t))
    ensures AvroDefaultFits(t, DefaultForType(t))
    decreases Size(t)
  {
    if t.JArr? {
      SizeSeqElement(t.items, 0);
      assert t.items[0] != JStr("null");
      DefaultFitsAvro(t.items[0]);
    } else if t.JObj? {
      var symbols := GetOr(t, "symbols", JArr([]));
      if Get(t, "type") == JStr("enum") {
        assert symbols.items[0] in symbols.items;
      }
    }
  }

  // ---------------------------------------------------------------------------
  // _inject_defaults, as a function on trees
  // ---------------------------------------------------------------------------

  /**
    The schemas `_inject_defaults` walks without raising: "fields" is a list
    of dictionaries that each have a "type" (`field["type"]`), the type of a
    field without a default is Resolvable, and every nested schema the walk
    visits is itself walkable.
  */
  predicate Injectable(s: Value)
    decreases Size(s), 0
  {
    !Has(s, "fields") ||
    (var fs := Get(s, "fields");
     fs.JArr? &&
     forall i :: 0 <= i < |fs.items| ==> (SizeSeqElement(fs.items, i); FieldInjectable(fs.items[i])))
  }

  predicate FieldInjectable(f: Value)
    decreases Size(f), 0
  {
    f.JObj? && Has(f, "type") &&
    (!Has(f, "default") ==> Resolvable(Get(f, "type"))) &&
    TypeInjectable(Get(f, "type"))
  }

  predicate TypeInjectable(t: Value)
    decreases Size(t), 1
  {
    match t
    case JArr(bs) =>
      forall i :: 0 <= i < |bs| ==> (SizeSeqElement(bs, i); bs[i].JObj? ==> Injectable(bs[i]))
    case JObj(_) =>
      var name := Get(t, "type");
      if name == JStr("array") then Get(t, "items").JObj? ==> Injectable(Get(t, "items"))
      else if name == JStr("map") then Get(t, "values").JObj? ==> Injectable(Get(t, "values"))
      else if name == JStr("record") then Injectable(t)
      else true
    case _ => true
  }

  /** The schema after `_inject_defaults`: a schema without "fields" is left alone. */
  function InjectRecord(s: Value): (r: Value)
    requires Injectable(s)
    ensures s.JObj? ==> r.JObj?
    ensures !Has(s, "fields") ==> r == s
    decreases Size(s), 0
  {
    if !Has(s, "fields") then s
    else
      var fs := Get(s, "fields").items;
      Set(s, "fields", JArr(seq(|fs|, i requires 0 <= i < |fs| => (SizeSeqElement(fs, i); InjectField(fs[i])))))
  }

  /**
    One field after the loop body: a field that has a default keeps it; a
    field without one gets the type's default exactly when that is not None;
    either way its type is walked.
  */
  function InjectField(f: Value): (r: Value)
    requires FieldInjectable(f)
    ensures r.JObj? && Has(r, "type") && Get(r, "type") == InjectType(Get(f, "type"))
    ensures Has(f, "default") ==> Has(r, "default") && Get(r, "default") == Get(f, "default")
    ensures !Has(f, "default") ==>
      (Has(r, "default") <==> DefaultForType(Get(f, "type")) != JNull) &&
      (Has(r, "default") ==> Get(r, "default") == DefaultForType(Get(f, "type")))
    decreases Size(f), 2
  {
    var t := Get(f, "type");
    var withDefault :=
      if !Has(f, "default") && DefaultForType(t) != JNull then Set(f, "default", DefaultForType(t)) else f;
    Set(withDefault, "type", InjectType(t))
  }

  /** The walk into a field's type: object union branches, object items and values, nested records. */
  function InjectType(t: Value): (r: Value)
    requires TypeInjectable(t)
    ensures t.JObj? ==> r.JObj? && Get(r, "type") == Get(t, "type")
    ensures t.JArr? ==> r.JArr? && |r.items| == |t.items|
    ensures !t.JArr? && !t.JObj? ==> r == t
    decreases Size(t), 1
  {
    match t
    case JArr(bs) =>
      JArr(seq(|bs|, i requires 0 <= i < |bs| =>
        (SizeSeqElement(bs, i); if bs[i].JObj? then InjectRecord(bs[i]) else bs[i])))
    case JObj(_) =>
      var name := Get(t, "type");
      if name == JStr("array") && Get(t, "items").JObj? then Set(t, "items", InjectRecord(Get(t, "items")))
      else if name == JStr("map") && Get(t, "values").JObj? then Set(t, "values", InjectRecord(Get(t, "values")))
      else if name == JStr("record") then InjectRecord(t)
      else t
    case _ => t
  }

  /** Enum and fixed types (and every other dictionary kind but array, map and record) are never entered. */
  lemma EnumAndFixedUntouched(t: Value)
    requires t.JObj? && TypeInjectable(t)
    requires Get(t, "type") != JStr("array") && Get(t, "type") != JStr("map") && Get(t, "type") != JStr("record")
    ensures InjectType(t) == t
  {
  }

  // ---------------------------------------------------------------------------
  // Only "default" keys are ever added
  // ---------------------------------------------------------------------------

  /**
    `b` is `a` with a "default" entry appended to some of the dictionaries
    in it that had none, and nothing else changed.
  */
  predicate AddsOnlyDefaults(a: Value, b: Value)
    decreases Size(a)
  {
    match a
    case JArr(xs) =>
      b.JArr? && |b.items| == |xs| &&
      forall i :: 0 <= i < |xs| ==> (SizeSeqElement(xs, i); AddsOnlyDefaults(xs[i], b.items[i]))
    case JObj(ms) =>
      b.JObj? &&
      (|b.members| == |ms| ||
       (|b.members| == |ms| + 1 && b.members[|ms|].key == "default" && IndexOf(ms, "default") < 0)) &&
      forall i :: 0 <= i < |ms| ==>
        b.members[i].key == ms[i].key &&
        (SizeMembersElement(ms, i); AddsOnlyDefaults(ms[i].value, b.members[i].value))
    case _ => b == a
  }

  lemma {:induction false} AddsOnlyDefaultsRefl(a: Value)
    ensures AddsOnlyDefaults(a, a)
    decreases Size(a)
  {
    match a
    case JArr(xs) =>
      forall i | 0 <= i < |xs| ensures AddsOnlyDefaults(xs[i], xs[i]) {
        SizeSeqElement(xs, i);
        AddsOnlyDefaultsRefl(xs[i]);
      }
    case JObj(ms) =>
      forall i | 0 <= i < |ms| ensures AddsOnlyDefaults(ms[i].value, ms[i].value) {
        SizeMembersElement(ms, i);
        AddsOnlyDefaultsRefl(ms[i].value);
      }
    case _ =>
  }

  /** Replacing the value of an existing key by an extension of it is an extension. */
  lemma ReplaceExtends(o: Value, k: string, v: Value)
    requires Has(o, k) && AddsOnlyDefaults(Get(o, k), v)
    ensures AddsOnlyDefaults(o, Set(o, k, v))
  {
    var ms := o.members;
    var r := Set(o, k, v);
    var j := IndexOf(ms, k);
    assert r.members == ms[j := Member(k, v)];
    forall i | 0 <= i < |ms| ensures AddsOnlyDefaults(ms[i].value, r.members[i].value) {
      if i != j { AddsOnlyDefaultsRefl(ms[i].value); }
    }
  }

  /** Adding a "default" key a dictionary lacks, then extending the value of another key. */
  lemma AppendDefaultThenReplaceExtends(o: Value, d: Value, k: string, v: Value)
    requires o.JObj? && !Has(o, "default") && k != "default" && Has(o, k) && AddsOnlyDefaults(Get(o, k), v)
    ensures AddsOnlyDefaults(o, Set(Set(o, "default", d), k, v))
  {
    var ms := o.members;
    var o1 := Set(o, "default", d);
    var r := Set(o1, k, v);
    var j := IndexOf(o1.members, k);
    assert j == IndexOf(ms, k) by { AppendKey(ms, "default", d); }
    assert r.members == o1.members[j := Member(k, v)];
    forall i | 0 <= i < |ms| ensures AddsOnlyDefaults(ms[i].value, r.members[i].value) {
      if i != j { AddsOnlyDefaultsRefl(ms[i].value); }
    }
  }

  /** The injector adds "default" keys and changes nothing else anywhere in the tree. */
  lemma {:induction false} InjectAddsOnlyDefaults(s: Value)
    requires Injectable(s)
    ensures AddsOnlyDefaults(s, InjectRecord(s))
    decreases Size(s), 0
  {
    if !Has(s, "fields") {
      AddsOnlyDefaultsRefl(s);
    } else {
      var fs := Get(s, "fields").items;
      var out := InjectRecord(s);
      var nfs := Get(out, "fields").items;
      forall i | 0 <= i < |fs| ensures AddsOnlyDefaults(fs[i], nfs[i]) {
        SizeSeqElement(fs, i);
        FieldAddsOnlyDefaults(fs[i]);
      }
      ReplaceExtends(s, "fields", JArr(nfs));
    }
  }

  lemma {:induction false} FieldAddsOnlyDefaults(f: Value)
    requires FieldInjectable(f)
    ensures AddsOnlyDefaults(f, InjectField(f))
    decreases Size(f), 2
  {
    var t := Get(f, "type");
    TypeAddsOnlyDefaults(t);
    if !Has(f, "default") && DefaultForType(t) != JNull {
      AppendDefaultThenReplaceExtends(f, DefaultForType(t), "type", InjectType(t));
    } else {
      ReplaceExtends(f, "type", InjectType(t));
    }
  }

  lemma {:induction false} TypeAddsOnlyDefaults(t: Value)
    requires TypeInjectable(t)
    ensures AddsOnlyDefaults(t, InjectType(t))
    decreases Size(t), 1
  {
    match t
    case JArr(bs) =>
      var r := InjectType(t);
      forall i | 0 <= i < |bs| ensures AddsOnlyDefaults(bs[i], r.items[i]) {
        SizeSeqElement(bs, i);
        if bs[i].JObj? { InjectAddsOnlyDefaults(bs[i]); } else { AddsOnlyDefaultsRefl(bs[i]); }
      }
    case JObj(_) =>
      var name := Get(t, "type");
      if name == JStr("array") && Get(t, "items").JObj? {
        InjectAddsOnlyDefaults(Get(t, "items"));
        ReplaceExtends(t, "items", InjectRecord(Get(t, "items")));
      } else if name == JStr("map") && Get(t, "values").JObj? {
        InjectAddsOnlyDefaults(Get(t, "values"));
        ReplaceExtends(t, "values", InjectRecord(Get(t, "values")));
      } else if name == JStr("record") {
        InjectAddsOnlyDefaults(t);
      } else {
        AddsOnlyDefaultsRefl(t);
      }
    case _ =>
  }

  // ---------------------------------------------------------------------------
  // A second run changes nothing
  // ---------------------------------------------------------------------------

  /** The table lookup for a dictionary reads only its "type" and "symbols". */
  lemma ComplexDefaultReads(a: Value, b: Value)
    requires a.JObj? && b.JObj? && Resolvable(a)
    requires Get(a, "type") == Get(b, "type")
    requires GetOr(a, "symbols", JArr([])) == GetOr(b, "symbols", JArr([]))
    ensures Resolvable(b) && ComplexDefault(b) == ComplexDefault(a)
  {
  }

  /** The walk rewrites only "fields", "items" and "values" of a dictionary. */
  lemma WalkKeepsOtherKeys(t: Value, k: string)
    requires t.JObj? && TypeInjectable(t) && k != "fields" && k != "items" && k != "values"
    ensures forall d :: GetOr(InjectType(t), k, d) == GetOr(t, k, d)
  {
  }

  lemma RecordKeepsOtherKeys(s: Value, k: string)
    requires s.JObj? && Injectable(s) && k != "fields"
    ensures forall d :: GetOr(InjectRecord(s), k, d) == GetOr(s, k, d)
  {
  }

  /** So the table lookup sees the same type before and after the walk. */
  lemma DefaultUnchangedByWalk(t: Value)
    requires Resolvable(t) && TypeInjectable(t)
    ensures Resolvable(InjectType(t)) && DefaultForType(InjectType(t)) == DefaultForType(t)
  {
    match t
    case JArr(bs) =>
      var r := InjectType(t);
      var b := bs[0];
      if b.JObj? {
        assert r.items[0] == InjectRecord(b);
        RecordKeepsOtherKeys(b, "type");
        RecordKeepsOtherKeys(b, "symbols");
        ComplexDefaultReads(b, InjectRecord(b));
        assert DefaultForType(r) == DefaultForType(InjectRecord(b));
      } else {
        assert r.items[0] == b;
      }
    case JObj(_) =>
      WalkKeepsOtherKeys(t, "type");
      WalkKeepsOtherKeys(t, "symbols");
      ComplexDefaultReads(t, InjectType(t));
    case _ =>
  }

  /** `_inject_defaults` is idempotent: a second run finds nothing to add. */
  lemma {:induction false} InjectIdempotent(s: Value)
    requires Injectable(s)
    ensures Injectable(InjectRecord(s)) && InjectRecord(InjectRecord(s)) == InjectRecord(s)
    decreases Size(s), 0
  {
    if Has(s, "fields") {
      var fs := Get(s, "fields").items;
      var r := InjectRecord(s);
      var nfs := Get(r, "fields").items;
      assert Has(r, "fields") && Get(r, "fields") == JArr(nfs);
      forall i | 0 <= i < |nfs| ensures FieldInjectable(nfs[i]) && InjectField(nfs[i]) == nfs[i] {
        SizeSeqElement(fs, i);
        FieldIdempotent(fs[i]);
      }
      var again := seq(|nfs|, i requires 0 <= i < |nfs| => InjectField(nfs[i]));
      assert again == nfs;
      SetSame(r, "fields");
    }
  }

  lemma {:induction false} FieldIdempotent(f: Value)
    requires FieldInjectable(f)
    ensures FieldInjectable(InjectField(f)) && InjectField(InjectField(f)) == InjectField(f)
    decreases Size(f), 2
  {
    var t := Get(f, "type");
    var f' := InjectField(f);
    TypeIdempotent(t);
    if !Has(f', "default") {
      DefaultUnchangedByWalk(t);
    }
    SetSame(f', "type");
  }

  lemma {:induction false} TypeIdempotent(t: Value)
    requires TypeInjectable(t)
    ensures TypeInjectable(InjectType(t)) && InjectType(InjectType(t)) == InjectType(t)
    decreases Size(t), 1
  {
    match t
    case JArr(bs) =>
      var r := InjectType(t);
      forall i | 0 <= i < |bs|
        ensures r.items[i].JObj? ==> Injectable(r.items[i]) && InjectRecord(r.items[i]) == r.items[i]
      {
        SizeSeqElement(bs, i);
        if bs[i].JObj? { InjectIdempotent(bs[i]); }
      }
      var again := InjectType(r);
      assert again.items == r.items;
    case JObj(_) =>
      var name := Get(t, "type");
      var r := InjectType(t);
      if name == JStr("array") && Get(t, "items").JObj? {
        InjectIdempotent(Get(t, "items"));
        SetSame(r, "items");
      } else if name == JStr("map") && Get(t, "values").JObj? {
        InjectIdempotent(Get(t, "values"));
        SetSame(r, "values");
      } else if name == JStr("record") {
        InjectIdempotent(t);
      }
    case _ =>
  }

  // ---------------------------------------------------------------------------
  // _inject_defaults and process_file, as the source runs them
  // ---------------------------------------------------------------------------

  /**
    `_inject_defaults`: the loop over "fields" with the `modified` flag. The
    flag is true exactly when the tree changed, that is (InjectAddsOnlyDefaults)
    when at least one "default" key was added somewhere.
  */
  method InjectDefaults(schema: Value) returns (r: Value, modified: bool)
    requires Injectable(schema)
    ensures r == InjectRecord(schema)
    ensures modified <==> r != schema
    decreases Size(schema), 0
  {
    modified := false;
    if !Has(schema, "fields") {
      return schema, modified;
    }
    var fields := Get(schema, "fields").items;
    var out;
    out, modified := InjectIntoFields(schema, fields);
    r := Set(schema, "fields", JArr(out));
    if modified { SetDifferent(schema, "fields", JArr(out)); } else { SetSame(schema, "fields"); }
  }

  /** The field loop of `_inject_defaults`, with its `modified` flag. */
  method InjectIntoFields(ghost schema: Value, fields: seq<Value>) returns (out: seq<Value>, modified: bool)
    requires Injectable(schema) && Has(schema, "fields") && Get(schema, "fields") == JArr(fields)
    ensures JArr(out) == Get(InjectRecord(schema), "fields")
    ensures modified <==> out != fields
    decreases Size(JArr(fields)), 0
  {
    ghost var target := Get(InjectRecord(schema), "fields").items;
    out, modified := [], false;
    var i := 0;
    while i < |fields|
      invariant 0 <= i <= |fields| == |target|
      invariant out == target[..i]
      invariant modified <==> out != fields[..i]
    {
      SizeSeqElement(fields, i);
      var newField, fieldChanged := InjectIntoField(fields[i]);
      PrefixStep(fields, i);
      PrefixStep(target, i);
      AppendDiffers(out, fields[..i], newField, fields[i]);
      out := out + [newField];
      modified := modified || fieldChanged;
      i := i + 1;
    }
    PrefixAll(fields);
    PrefixAll(target);
  }

  /** The body of the field loop of `_inject_defaults`: add the missing default, then walk the type. */
  method InjectIntoField(f: Value) returns (r: Value, changed: bool)
    requires FieldInjectable(f)
    ensures r == InjectField(f)
    ensures changed <==> r != f
    decreases Size(f), 2
  {
    var field := f;
    var fieldChanged := false;
    if !Has(field, "default") {
      var defaultValue := DefaultForType(Get(field, "type"));
      if defaultValue != JNull {
        field := Set(field, "default", defaultValue);
        fieldChanged := true;
      }
    }
    var fieldType := Get(field, "type");
    var newType, typeChanged := InjectIntoType(fieldType);
    r := Set(field, "type", newType);
    changed := fieldChanged || typeChanged;
    if fieldChanged {
      assert |r.members| == |f.members| + 1;
    } else if typeChanged {
      SetDifferent(f, "type", newType);
    } else {
      SetSame(f, "type");
    }
  }

  /** The loop over a union's branches: each dictionary branch is walked as a record. */
  method InjectIntoBranches(branches: seq<Value>) returns (out: seq<Value>, modified: bool)
    requires TypeInjectable(JArr(branches))
    ensures JArr(out) == InjectType(JArr(branches))
    ensures modified <==> out != branches
    decreases Size(JArr(branches)), 0
  {
    ghost var walked := InjectType(JArr(branches)).items;
    out, modified := [], false;
    var i := 0;
    while i < |branches|
      invariant 0 <= i <= |branches| == |walked|
      invariant out == walked[..i]
      invariant modified <==> out != branches[..i]
    {
      BranchWalked(branches, i);
      var branch := branches[i];
      var branchChanged := false;
      if branch.JObj? {
        branch, branchChanged := InjectDefaults(branch);
      }
      PrefixStep(branches, i);
      PrefixStep(walked, i);
      AppendDiffers(out, branches[..i], branch, branches[i]);
      out := out + [branch];
      modified := modified || branchChanged;
      i := i + 1;
    }
    PrefixAll(branches);
    PrefixAll(walked);
  }

  /** Branch `i` of a walked union: a dictionary branch walked as a record, any other kept. */
  lemma BranchWalked(branches: seq<Value>, i: int)
    requires TypeInjectable(JArr(branches)) && 0 <= i < |branches|
    ensures Size(branches[i]) < Size(JArr(branches))
    ensures branches[i].JObj? ==> Injectable(branches[i])
    ensures InjectType(JArr(branches)).items[i] == if branches[i].JObj? then InjectRecord(branches[i]) else branches[i]
  {
    SizeSeqElement(branches, i);
  }

  /** The dispatch on the field's type inside the loop of `_inject_defaults`. */
  method InjectIntoType(t: Value) returns (r: Value, modified: bool)
    requires TypeInjectable(t)
    ensures r == InjectType(t)
    ensures modified <==> r != t
    decreases Size(t), 1
  {
    r, modified := t, false;
    if t.JArr? {
      var out;
      out, modified := InjectIntoBranches(t.items);
      r := JArr(out);
    } else if t.JObj? {
      var name := Get(t, "type");
      if name == JStr("array") {
        var items := Get(t, "items");
        if items.JObj? {
          var newItems, m := InjectDefaults(items);
          if m { SetDifferent(t, "items", newItems); } else { SetSame(t, "items"); }
          r, modified := Set(t, "items", newItems), m;
        }
      } else if name == JStr("map") {
        var values := Get(t, "values");
        if values.JObj? {
          var newValues, m := InjectDefaults(values);
          if m { SetDifferent(t, "values", newValues); } else { SetSame(t, "values"); }
          r, modified := Set(t, "values", newValues), m;
        }
      } else if name == JStr("record") {
        r, modified := InjectDefaults(t);
      }
    }
  }

  /**
    The top-level values `process_file` handles without raising. The source
    calls `_inject_defaults` on the parsed file whatever it is: for a list or a
    string, `"fields" not in data` is a membership or substring test, true
    unless "fields" occurs (then `data["fields"]` raises); for None, a number
    or a bool the test itself raises.
  */
  predicate TopLevelProcessable(v: Value)
  {
    match v
    case JObj(_) => Injectable(v)
    case JArr(items) => JStr("fields") !in items
    case JStr(s) => !Contains(s, "fields")
    case _ => false
  }

  /**
    `process_file`: the file is rewritten exactly when the walk added a
    default; a list of definitions or a string is never changed.
    A file that does not parse makes `json.loads` raise.
  */
  method ProcessFile(fs: FileSystem, path: string) returns (fs': FileSystem, changed: bool)
    requires path in fs && fs[path].Json? && TopLevelProcessable(fs[path].value)
    ensures var v := fs[path].value;
      changed <==> v.JObj? && InjectRecord(v) != v
    ensures var v := fs[path].value;
      fs' == if changed then fs[path := Json(InjectRecord(v))] else fs
  {
    var data := fs[path].value;
    fs', changed := fs, false;
    if data.JObj? {
      var newData;
      newData, changed := InjectDefaults(data);
      if changed {
        fs' := fs[path := Json(newData)];
      }
    }
  }

  /** After one successful run over a file, a second run reports no change. */
  lemma SecondRunUnchanged(v: Value)
    requires v.JObj? && Injectable(v)
    ensures var w := InjectRecord(v); w.JObj? && Injectable(w) && InjectRecord(w) == w
  {
    InjectIdempotent(v);
  }

  /**
    A field with a null-first union and no default keeps having no default:
    None stands for "no default", so `default: null` is never injected.
  */
  lemma NullFirstUnionGetsNoDefault(f: Value)
    requires FieldInjectable(f) && !Has(f, "default")
    requires var t := Get(f, "type"); t.JArr? && |t.items| > 0 && t.items[0] == JStr("null")
    ensures !Has(InjectField(f), "default")
  {
  }
}
