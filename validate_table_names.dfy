// The table-name validator of tools/validate_table_names.py: every manifest
// entry must carry a name and a table_name, and no two entries may share a
// table_name.

module ValidateTableNames {
  import opened JsonValue

  // ---------------------------------------------------------------------------
  // Entries and errors
  // ---------------------------------------------------------------------------

  /** A counted entry: a dict inside a list-valued group, with its group name. */
  datatype Counted = Counted(category: string, entry: Value)


  /** One line of the error list; the wording of each message is not modelled, only its kind and subject. */
  datatype TableError =
    | ManifestNotFound
    | InvalidYaml
    | MissingName(category: string)
    | MissingTableName(category: string, name: Value)
    | DuplicateTableName(tableName: Value, owners: seq<string>)

  /** `entry.get("name", "")`. */
  function NameOf(x: Counted): Value
  {
    GetOr(x.entry, "name", JStr(""))
  }

  /** `entry.get("table_name")`. */
  function TableOf(x: Counted): Value
  {
    Get(x.entry, "table_name")
  }

  /** `f"{category}.{name}"`: how an entry is listed among the owners of a table name. */
  function OwnerOf(x: Counted): string
  {
    x.category + "." + Str(NameOf(x))
  }

  /** An entry that reaches the duplicate dict: it has a name and a table name. */
  predicate Tabled(x: Counted)
  {
    Truthy(NameOf(x)) && Truthy(TableOf(x))
  }

  /**
    An entry the loop handles without raising: a table name that reaches the
    duplicate dict is hashable (a str, int, float or bool; a list or dict
    raises).
  */
  predicate Keyable(x: Counted)
  {
    Tabled(x) ==> IsScalar(TableOf(x))
  }

  // ---------------------------------------------------------------------------
  // The entry loop as a fold over the counted entries
  // ---------------------------------------------------------------------------

  /** The dict entries of one group, in order; anything else is skipped. */
  function CountedIn(category: string, es: seq<Value>): (r: seq<Counted>)
    ensures |r| <= |es|
  {
    if es == [] then []
    else
      var e := es[|es| - 1];
      CountedIn(category, es[..|es| - 1]) + (if e.JObj? then [Counted(category, e)] else [])
  }

  /** The counted entries of every list-valued group, group by group. */
  function CountedAll(ms: seq<Member>): seq<Counted>
  {
    if ms == [] then []
    else
      var g := ms[|ms| - 1];
      CountedAll(ms[..|ms| - 1]) + (if g.value.JArr? then CountedIn(g.key, g.value.items) else [])
  }

  /** One key of `duplicate_table_names` with its list of owners. */
  datatype Bucket = Bucket(tableName: Value, owners: seq<string>)

  /** The position of table name `t` among the buckets, or -1. */
  function BucketIndex(bs: seq<Bucket>, t: Value): (i: int)
    ensures -1 <= i < |bs|
    ensures i >= 0 ==> bs[i].tableName == t
    ensures i < 0 ==> forall k :: 0 <= k < |bs| ==> bs[k].tableName != t
  {
    if bs == [] then -1
    else if bs[|bs| - 1].tableName == t then |bs| - 1
    else BucketIndex(bs[..|bs| - 1], t)
  }

  /** `duplicate_table_names.setdefault(t, []).append(o)`, in the dict's insertion order. */
  function AddOwner(bs: seq<Bucket>, t: Value, o: string): seq<Bucket>
  {
    var i := BucketIndex(bs, t);
    if i < 0 then bs + [Bucket(t, [o])]
    else bs[i := Bucket(t, bs[i].owners + [o])]
  }

  /** The loop's state: the error list, the two counters and the duplicate dict. */
  datatype Tally = Tally(errors: seq<TableError>, total: nat, withTable: nat, buckets: seq<Bucket>)

  /** One pass of the entry loop. */
  function Step(t: Tally, x: Counted): Tally
  {
    var name, tableName := NameOf(x), TableOf(x);
    if !Truthy(name) then
      Tally(t.errors + [MissingName(x.category)], t.total + 1, t.withTable, t.buckets)
    else if !Truthy(tableName) then
      Tally(t.errors + [MissingTableName(x.category, name)], t.total + 1, t.withTable, t.buckets)
    else
      Tally(t.errors, t.total + 1, t.withTable + 1, AddOwner(t.buckets, tableName, OwnerOf(x)))
  }

  predicate AllKeyable(xs: seq<Counted>)
  {
    forall i :: 0 <= i < |xs| ==> Keyable(xs[i])
  }

  /** The state after the entry loop has seen `xs`. */
  function Fold(xs: seq<Counted>): Tally
  {
    if xs == [] then Tally([], 0, 0, [])
    else Step(Fold(xs[..|xs| - 1]), xs[|xs| - 1])
  }

  /** The duplicate loop: one error per table name with more than one owner, in dict order. */
  function DupErrors(bs: seq<Bucket>): seq<TableError>
  {
    if bs == [] then []
    else
      var b := bs[|bs| - 1];
      DupErrors(bs[..|bs| - 1]) + (if |b.owners| > 1 then [DuplicateTableName(b.tableName, b.owners)] else [])
  }

  /** What `validate_table_names` returns once the manifest is read: per-entry errors, then duplicates. */
  function Errors(xs: seq<Counted>): seq<TableError>
  {
    Fold(xs).errors + DupErrors(Fold(xs).buckets)
  }

  // ---------------------------------------------------------------------------
  // Specification: what each entry contributes
  // ---------------------------------------------------------------------------

  /** The error one entry contributes by itself: none when it has a name and a table name. */
  function EntryError(x: Counted): seq<TableError>
  {
    if !Truthy(NameOf(x)) then [MissingName(x.category)]
    else if !Truthy(TableOf(x)) then [MissingTableName(x.category, NameOf(x))]
    else []
  }

  function EntryErrors(xs: seq<Counted>): seq<TableError>
  {
    if xs == [] then [] else EntryErrors(xs[..|xs| - 1]) + EntryError(xs[|xs| - 1])
  }

  /** The entries with a name and a table name `t`, as owners, in encounter order. */
  function OwnersOf(xs: seq<Counted>, t: Value): seq<string>
  {
    if xs == [] then []
    else
      var x := xs[|xs| - 1];
      OwnersOf(xs[..|xs| - 1], t) + (if Tabled(x) && TableOf(x) == t then [OwnerOf(x)] else [])
  }

  function CountTabled(xs: seq<Counted>): (r: nat)
    ensures r <= |xs|
  {
    if xs == [] then 0 else CountTabled(xs[..|xs| - 1]) + (if Tabled(xs[|xs| - 1]) then 1 else 0)
  }

  predicate DistinctBuckets(bs: seq<Bucket>)
  {
    forall i, j :: 0 <= i < j < |bs| ==> bs[i].tableName != bs[j].tableName
  }

  /**
    The buckets of the duplicate dict: one per table name in use, none twice,
    each listing every owner of that table name in encounter order.
  */
  ghost predicate BucketsOf(bs: seq<Bucket>, xs: seq<Counted>)
  {
    && DistinctBuckets(bs)
    && (forall k :: 0 <= k < |bs| ==> bs[k].owners == OwnersOf(xs, bs[k].tableName))
    && (forall t :: BucketIndex(bs, t) >= 0 <==> |OwnersOf(xs, t)| > 0)
  }

  lemma AddOwnerNew(bs: seq<Bucket>, t: Value, o: string, u: Value)
    requires BucketIndex(bs, t) < 0
    ensures BucketIndex(AddOwner(bs, t, o), u) == (if u == t then |bs| else BucketIndex(bs, u))
  {
    assert (bs + [Bucket(t, [o])])[..|bs|] == bs;
  }

  lemma {:induction false} BucketIndexOfNames(bs: seq<Bucket>, cs: seq<Bucket>, u: Value)
    requires |bs| == |cs| && forall k :: 0 <= k < |bs| ==> bs[k].tableName == cs[k].tableName
    ensures BucketIndex(bs, u) == BucketIndex(cs, u)
  {
    if bs != [] {
      BucketIndexOfNames(bs[..|bs| - 1], cs[..|cs| - 1], u);
    }
  }

  /** The fold keeps the counters and the per-entry errors to their specification. */
  lemma {:induction false} FoldCounts(xs: seq<Counted>)
    ensures Fold(xs).total == |xs|
    ensures Fold(xs).withTable == CountTabled(xs)
    ensures Fold(xs).errors == EntryErrors(xs)
  {
    if xs != [] {
      FoldCounts(xs[..|xs| - 1]);
    }
  }

  /** A new table name opens a bucket at the end of the dict. */
  lemma BucketsStepNew(xs: seq<Counted>, bs: seq<Bucket>)
    requires xs != [] && Tabled(xs[|xs| - 1])
    requires BucketsOf(bs, xs[..|xs| - 1]) && BucketIndex(bs, TableOf(xs[|xs| - 1])) < 0
    ensures BucketsOf(AddOwner(bs, TableOf(xs[|xs| - 1]), OwnerOf(xs[|xs| - 1])), xs)
  {
    var x := xs[|xs| - 1];
    var t, o := TableOf(x), OwnerOf(x);
    var bs' := AddOwner(bs, t, o);
    assert bs' == bs + [Bucket(t, [o])];
    NewBucketOwners(xs, bs);
    NewBucketLast(xs, bs);
    forall t' ensures BucketIndex(bs', t') >= 0 <==> |OwnersOf(xs, t')| > 0 {
      NewBucketIndex(xs, bs, t');
    }
  }

  /** The buckets already there keep their owners: the new entry names another table. */
  lemma NewBucketOwners(xs: seq<Counted>, bs: seq<Bucket>)
    requires xs != [] && Tabled(xs[|xs| - 1])
    requires forall k :: 0 <= k < |bs| ==> bs[k].owners == OwnersOf(xs[..|xs| - 1], bs[k].tableName)
    requires forall k :: 0 <= k < |bs| ==> bs[k].tableName != TableOf(xs[|xs| - 1])
    ensures forall k :: 0 <= k < |bs| ==> bs[k].owners == OwnersOf(xs, bs[k].tableName)
  {
    forall k | 0 <= k < |bs| ensures bs[k].owners == OwnersOf(xs, bs[k].tableName) {
      OwnersOther(xs, bs[k]);
    }
  }

  /** An entry does not change the owners of a table name other than its own. */
  lemma OwnersOther(xs: seq<Counted>, b: Bucket)
    requires xs != [] && b.owners == OwnersOf(xs[..|xs| - 1], b.tableName)
    requires !(Tabled(xs[|xs| - 1]) && TableOf(xs[|xs| - 1]) == b.tableName)
    ensures b.owners == OwnersOf(xs, b.tableName)
  {
  }

  /** The new bucket is distinct from the others and holds exactly the new owner. */
  lemma NewBucketLast(xs: seq<Counted>, bs: seq<Bucket>)
    requires xs != [] && Tabled(xs[|xs| - 1])
    requires BucketsOf(bs, xs[..|xs| - 1]) && BucketIndex(bs, TableOf(xs[|xs| - 1])) < 0
    ensures DistinctBuckets(bs + [Bucket(TableOf(xs[|xs| - 1]), [OwnerOf(xs[|xs| - 1])])])
    ensures OwnersOf(xs, TableOf(xs[|xs| - 1])) == [OwnerOf(xs[|xs| - 1])]
  {
    var init, x := xs[..|xs| - 1], xs[|xs| - 1];
    assert |OwnersOf(init, TableOf(x))| == 0;
  }

  /** After opening a bucket, a table name has one exactly when it has an owner. */
  lemma NewBucketIndex(xs: seq<Counted>, bs: seq<Bucket>, u: Value)
    requires xs != [] && Tabled(xs[|xs| - 1])
    requires BucketsOf(bs, xs[..|xs| - 1]) && BucketIndex(bs, TableOf(xs[|xs| - 1])) < 0
    ensures BucketIndex(AddOwner(bs, TableOf(xs[|xs| - 1]), OwnerOf(xs[|xs| - 1])), u) >= 0 <==> |OwnersOf(xs, u)| > 0
  {
    var init, x := xs[..|xs| - 1], xs[|xs| - 1];
    AddOwnerNew(bs, TableOf(x), OwnerOf(x), u);
    if u != TableOf(x) {
      assert OwnersOf(xs, u) == OwnersOf(init, u);
    }
  }

  /** A table name already in the dict gets one more owner at the end of its bucket. */
  lemma BucketsStepOld(xs: seq<Counted>, bs: seq<Bucket>)
    requires xs != [] && Tabled(xs[|xs| - 1])
    requires BucketsOf(bs, xs[..|xs| - 1]) && BucketIndex(bs, TableOf(xs[|xs| - 1])) >= 0
    ensures BucketsOf(AddOwner(bs, TableOf(xs[|xs| - 1]), OwnerOf(xs[|xs| - 1])), xs)
  {
    var x := xs[|xs| - 1];
    var bs' := AddOwner(bs, TableOf(x), OwnerOf(x));
    OldBucketsDistinct(bs, TableOf(x), OwnerOf(x));
    OldBucketsOwners(xs, bs, bs');
    forall u ensures BucketIndex(bs', u) >= 0 <==> |OwnersOf(xs, u)| > 0 {
      OldBucketIndex(xs, bs, u);
    }
  }

  /** Appending an owner to an existing bucket keeps the table names distinct. */
  lemma OldBucketsDistinct(bs: seq<Bucket>, t: Value, o: string)
    requires DistinctBuckets(bs) && BucketIndex(bs, t) >= 0
    ensures DistinctBuckets(AddOwner(bs, t, o))
  {
    var bs' := AddOwner(bs, t, o);
    assert forall k :: 0 <= k < |bs'| ==> bs'[k].tableName == bs[k].tableName;
  }

  /** Every bucket's owners after appending to the bucket of the entry's table name. */
  lemma OldBucketsOwners(xs: seq<Counted>, bs: seq<Bucket>, bs': seq<Bucket>)
    requires xs != [] && Tabled(xs[|xs| - 1])
    requires BucketsOf(bs, xs[..|xs| - 1]) && BucketIndex(bs, TableOf(xs[|xs| - 1])) >= 0
    requires bs' == AddOwner(bs, TableOf(xs[|xs| - 1]), OwnerOf(xs[|xs| - 1]))
    ensures forall k :: 0 <= k < |bs'| ==> bs'[k].owners == OwnersOf(xs, bs'[k].tableName)
  {
    forall k | 0 <= k < |bs'| ensures bs'[k].owners == OwnersOf(xs, bs'[k].tableName) {
      OldBucketOwners(xs, bs, k);
    }
  }

  /** Each bucket's owners after appending to the bucket of the entry's table name. */
  lemma OldBucketOwners(xs: seq<Counted>, bs: seq<Bucket>, k: int)
    requires xs != [] && Tabled(xs[|xs| - 1])
    requires BucketsOf(bs, xs[..|xs| - 1]) && BucketIndex(bs, TableOf(xs[|xs| - 1])) >= 0
    requires 0 <= k < |bs|
    ensures |AddOwner(bs, TableOf(xs[|xs| - 1]), OwnerOf(xs[|xs| - 1]))| == |bs|
    ensures AddOwner(bs, TableOf(xs[|xs| - 1]), OwnerOf(xs[|xs| - 1]))[k].owners
      == OwnersOf(xs, AddOwner(bs, TableOf(xs[|xs| - 1]), OwnerOf(xs[|xs| - 1]))[k].tableName)
  {
    var x := xs[|xs| - 1];
    var t := TableOf(x);
    var i := BucketIndex(bs, t);
    if k != i {
      assert bs[k].tableName != t;
      OwnersOther(xs, bs[k]);
    }
  }

  /** Appending to an existing bucket leaves the set of table names with a bucket unchanged. */
  lemma OldBucketIndex(xs: seq<Counted>, bs: seq<Bucket>, u: Value)
    requires xs != [] && Tabled(xs[|xs| - 1])
    requires BucketsOf(bs, xs[..|xs| - 1]) && BucketIndex(bs, TableOf(xs[|xs| - 1])) >= 0
    ensures BucketIndex(AddOwner(bs, TableOf(xs[|xs| - 1]), OwnerOf(xs[|xs| - 1])), u) >= 0 <==> |OwnersOf(xs, u)| > 0
  {
    var init, x := xs[..|xs| - 1], xs[|xs| - 1];
    var bs' := AddOwner(bs, TableOf(x), OwnerOf(x));
    BucketIndexOfNames(bs', bs, u);
    if u != TableOf(x) {
      assert OwnersOf(xs, u) == OwnersOf(init, u);
    }
  }

  /** The fold keeps the duplicate dict to its specification. */
  lemma {:induction false} FoldBuckets(xs: seq<Counted>)
    ensures BucketsOf(Fold(xs).buckets, xs)
  {
    if xs != [] {
      var init, x := xs[..|xs| - 1], xs[|xs| - 1];
      FoldBuckets(init);
      var bs := Fold(init).buckets;
      if !Tabled(x) {
        assert forall u :: OwnersOf(xs, u) == OwnersOf(init, u);
      } else if BucketIndex(bs, TableOf(x)) < 0 {
        BucketsStepNew(xs, bs);
      } else {
        BucketsStepOld(xs, bs);
      }
    }
  }

  /** The fold keeps the counters, the per-entry errors and the buckets to their specification. */
  lemma FoldSpec(xs: seq<Counted>)
    ensures Fold(xs).total == |xs|
    ensures Fold(xs).withTable == CountTabled(xs)
    ensures Fold(xs).errors == EntryErrors(xs)
    ensures BucketsOf(Fold(xs).buckets, xs)
  {
    FoldCounts(xs);
    FoldBuckets(xs);
  }

  // ---------------------------------------------------------------------------
  // Properties of the result
  // ---------------------------------------------------------------------------

  /** Every counted entry is counted once; the with-table count never exceeds it, and the difference is the per-entry errors. */
  lemma {:induction false} CountsAgree(xs: seq<Counted>)
    ensures Fold(xs).total == |xs| && Fold(xs).withTable <= Fold(xs).total
    ensures |Fold(xs).errors| == Fold(xs).total - Fold(xs).withTable
  {
    if xs != [] {
      CountsAgree(xs[..|xs| - 1]);
    }
  }

  /** The duplicate errors: one per bucket with more than one owner, each naming its bucket's owners. */
  lemma {:induction false} DupErrorsIff(bs: seq<Bucket>, e: TableError)
    ensures e in DupErrors(bs) <==>
      e.DuplicateTableName? && exists k :: 0 <= k < |bs| && bs[k] == Bucket(e.tableName, e.owners) && |bs[k].owners| > 1
  {
    if bs != [] {
      var init := bs[..|bs| - 1];
      DupErrorsIff(init, e);
      if e.DuplicateTableName? && exists k :: 0 <= k < |init| && init[k] == Bucket(e.tableName, e.owners) && |init[k].owners| > 1 {
        var k :| 0 <= k < |init| && init[k] == Bucket(e.tableName, e.owners) && |init[k].owners| > 1;
        PrefixIndex(bs, |bs| - 1, k);
      }
      if e.DuplicateTableName? && exists k :: 0 <= k < |bs| && bs[k] == Bucket(e.tableName, e.owners) && |bs[k].owners| > 1 {
        var k :| 0 <= k < |bs| && bs[k] == Bucket(e.tableName, e.owners) && |bs[k].owners| > 1;
        if k < |bs| - 1 {
          PrefixIndex(bs, |bs| - 1, k);
        }
      }
    }
  }

  /** In the whole error list, exactly the duplicate errors come from the duplicate loop. */
  lemma {:induction false} EntryErrorsNoDuplicates(xs: seq<Counted>)
    ensures forall e :: e in EntryErrors(xs) ==> e.MissingName? || e.MissingTableName?
  {
    if xs != [] {
      EntryErrorsNoDuplicates(xs[..|xs| - 1]);
    }
  }

  /**
    A table name shared by more than one entry gets exactly one duplicate
    error, listing every owner in encounter order; a table name used once or
    not at all gets none.
  */
  lemma DuplicateReported(xs: seq<Counted>, t: Value, owners: seq<string>)
    ensures DuplicateTableName(t, owners) in Errors(xs) <==> |OwnersOf(xs, t)| > 1 && owners == OwnersOf(xs, t)
  {
    FoldSpec(xs);
    EntryErrorsNoDuplicates(xs);
    var bs := Fold(xs).buckets;
    var e := DuplicateTableName(t, owners);
    DupErrorsIff(bs, e);
    if |OwnersOf(xs, t)| > 1 && owners == OwnersOf(xs, t) {
      var k := BucketIndex(bs, t);
      assert bs[k] == Bucket(t, owners);
    }
  }

  /** No two duplicate errors name the same table name. */
  lemma DuplicateReportedOnce(xs: seq<Counted>, i: int, j: int)
    requires 0 <= i < j < |Errors(xs)| && Errors(xs)[i].DuplicateTableName? && Errors(xs)[j].DuplicateTableName?
    ensures Errors(xs)[i].tableName != Errors(xs)[j].tableName
  {
    FoldSpec(xs);
    EntryErrorsNoDuplicates(xs);
    var bs := Fold(xs).buckets;
    DupErrorsDistinct(bs);
    var errs, n := Errors(xs), |Fold(xs).errors|;
    assert errs[i] !in Fold(xs).errors;
    assert errs[i] == DupErrors(bs)[i - n] && errs[j] == DupErrors(bs)[j - n];
  }

  /** Distinct buckets give duplicate errors with distinct table names. */
  lemma {:induction false} DupErrorsDistinct(bs: seq<Bucket>)
    requires DistinctBuckets(bs)
    ensures forall e :: e in DupErrors(bs) ==> e.DuplicateTableName?
    ensures forall i, j :: 0 <= i < j < |DupErrors(bs)| ==>
      DupErrors(bs)[i].DuplicateTableName? && DupErrors(bs)[j].DuplicateTableName? &&
      DupErrors(bs)[i].tableName != DupErrors(bs)[j].tableName
  {
    if bs != [] {
      var init, b := bs[..|bs| - 1], bs[|bs| - 1];
      DupErrorsDistinct(init);
      forall e | e in DupErrors(init) ensures e.tableName != b.tableName {
        DupErrorsIff(init, e);
        var k :| 0 <= k < |init| && init[k] == Bucket(e.tableName, e.owners) && |init[k].owners| > 1;
        PrefixIndex(bs, |bs| - 1, k);
      }
    }
  }

  /** A named entry with table name `t` before position `n` makes the owners of `t` among `xs[..n]` non-empty. */
  lemma {:induction false} OwnersNonEmpty(xs: seq<Counted>, t: Value, i: int)
    requires 0 <= i < |xs| && Tabled(xs[i]) && TableOf(xs[i]) == t
    ensures |OwnersOf(xs, t)| > 0
  {
    if i < |xs| - 1 {
      PrefixIndex(xs, |xs| - 1, i);
      OwnersNonEmpty(xs[..|xs| - 1], t, i);
    }
  }

  /** Some owner of `t` is at some position. */
  lemma {:induction false} OwnersHaveIndex(xs: seq<Counted>, t: Value)
    requires |OwnersOf(xs, t)| > 0
    ensures exists i :: 0 <= i < |xs| && Tabled(xs[i]) && TableOf(xs[i]) == t
  {
    var init, x := xs[..|xs| - 1], xs[|xs| - 1];
    if !(Tabled(x) && TableOf(x) == t) {
      OwnersHaveIndex(init, t);
      var i :| 0 <= i < |init| && Tabled(init[i]) && TableOf(init[i]) == t;
      PrefixIndex(xs, |xs| - 1, i);
    }
  }

  /** Two entries with the same table name give that table name at least two owners. */
  lemma {:induction false} SharedTwoOwners(xs: seq<Counted>, i: int, j: int)
    requires 0 <= i < j < |xs| && Tabled(xs[i]) && Tabled(xs[j]) && TableOf(xs[i]) == TableOf(xs[j])
    ensures |OwnersOf(xs, TableOf(xs[i]))| > 1
  {
    var init, t := xs[..|xs| - 1], TableOf(xs[i]);
    PrefixIndex(xs, |xs| - 1, i);
    if j == |xs| - 1 {
      OwnersNonEmpty(init, t, i);
    } else {
      PrefixIndex(xs, |xs| - 1, j);
      SharedTwoOwners(init, i, j);
    }
  }

  /** A table name with two owners is shared by two entries. */
  lemma {:induction false} TwoOwnersShared(xs: seq<Counted>, t: Value)
    requires |OwnersOf(xs, t)| > 1
    ensures exists i, j :: 0 <= i < j < |xs| && Tabled(xs[i]) && Tabled(xs[j]) && TableOf(xs[i]) == TableOf(xs[j])
  {
    var init, x := xs[..|xs| - 1], xs[|xs| - 1];
    if Tabled(x) && TableOf(x) == t {
      OwnersHaveIndex(init, t);
      var i :| 0 <= i < |init| && Tabled(init[i]) && TableOf(init[i]) == t;
      PrefixIndex(xs, |xs| - 1, i);
      assert Tabled(xs[i]) && Tabled(xs[|xs| - 1]) && TableOf(xs[i]) == TableOf(xs[|xs| - 1]);
    } else {
      TwoOwnersShared(init, t);
      var i, j :| 0 <= i < j < |init| && Tabled(init[i]) && Tabled(init[j]) && TableOf(init[i]) == TableOf(init[j]);
      PrefixIndex(xs, |xs| - 1, i);
      PrefixIndex(xs, |xs| - 1, j);
    }
  }

  /** Table names are pairwise distinct exactly when no table name has two owners. */
  lemma DistinctIffNoShared(xs: seq<Counted>)
    ensures (forall i, j :: 0 <= i < j < |xs| && Tabled(xs[i]) && Tabled(xs[j]) ==> TableOf(xs[i]) != TableOf(xs[j]))
      <==> forall t :: |OwnersOf(xs, t)| <= 1
  {
    if exists i, j :: 0 <= i < j < |xs| && Tabled(xs[i]) && Tabled(xs[j]) && TableOf(xs[i]) == TableOf(xs[j]) {
      var i, j :| 0 <= i < j < |xs| && Tabled(xs[i]) && Tabled(xs[j]) && TableOf(xs[i]) == TableOf(xs[j]);
      SharedTwoOwners(xs, i, j);
    }
    if exists t :: |OwnersOf(xs, t)| > 1 {
      var t :| |OwnersOf(xs, t)| > 1;
      TwoOwnersShared(xs, t);
    }
  }

  /** Every entry has a name and a table name exactly when all of them are counted as having one. */
  lemma {:induction false} AllTabledIff(xs: seq<Counted>)
    ensures CountTabled(xs) == |xs| <==> forall i :: 0 <= i < |xs| ==> Tabled(xs[i])
  {
    if xs != [] {
      var init := xs[..|xs| - 1];
      AllTabledIff(init);
      forall i | 0 <= i < |init| ensures init[i] == xs[i] {
        PrefixIndex(xs, |xs| - 1, i);
      }
    }
  }

  /** No per-entry error exactly when every entry has a name and a table name. */
  lemma EntryErrorsEmptyIff(xs: seq<Counted>)
    ensures EntryErrors(xs) == [] <==> forall i :: 0 <= i < |xs| ==> Tabled(xs[i])
  {
    FoldCounts(xs);
    CountsAgree(xs);
    AllTabledIff(xs);
  }

  /** No duplicate error exactly when no table name has two owners. */
  lemma DupErrorsEmptyIff(xs: seq<Counted>)
    ensures DupErrors(Fold(xs).buckets) == [] <==> forall t :: |OwnersOf(xs, t)| <= 1
  {
    FoldBuckets(xs);
    var bs := Fold(xs).buckets;
    if DupErrors(bs) == [] {
      forall t ensures |OwnersOf(xs, t)| <= 1 {
        if |OwnersOf(xs, t)| > 1 {
          DuplicateReported(xs, t, OwnersOf(xs, t));
          EntryErrorsNoDuplicates(xs);
          FoldCounts(xs);
        }
      }
    } else {
      var e := DupErrors(bs)[0];
      assert e in DupErrors(bs);
      DupErrorsIff(bs, e);
      var k :| 0 <= k < |bs| && bs[k] == Bucket(e.tableName, e.owners) && |bs[k].owners| > 1;
      assert |OwnersOf(xs, e.tableName)| > 1;
    }
  }

  /**
    The error list is empty exactly when every counted entry has a name and
    a table name and all table names are distinct.
  */
  lemma ErrorsEmptyIff(xs: seq<Counted>)
    ensures Errors(xs) == [] <==>
      (forall i :: 0 <= i < |xs| ==> Tabled(xs[i])) &&
      (forall i, j :: 0 <= i < j < |xs| ==> TableOf(xs[i]) != TableOf(xs[j]))
  {
    FoldCounts(xs);
    EntryErrorsEmptyIff(xs);
    DupErrorsEmptyIff(xs);
    DistinctIffNoShared(xs);
  }

  // ---------------------------------------------------------------------------
  // validate_table_names
  // ---------------------------------------------------------------------------

  /** `yaml.safe_load(f) or {}`. */
  function ManifestOf(v: Value): Value
  {
    Or(v, JObj([]))
  }

  function GroupsOf(v: Value): seq<Member>
  {
    var s := GetOr(ManifestOf(v), "schemas", JObj([]));
    if s.JObj? then s.members else []
  }

  /**
    A parsed manifest the loop handles without raising: a dict (or empty),
    whose `schemas` is a dict, whose reaching table names are strings.
  */
  predicate ManifestReadable(v: Value)
  {
    ManifestOf(v).JObj? && GetOr(ManifestOf(v), "schemas", JObj([])).JObj? && AllKeyable(CountedAll(GroupsOf(v)))
  }

  /**
    `validate_table_names` on the manifest file: absent, unparsable, or
    parsed. Returns the error list and the two counters it reports.
  */
  method ValidateTableNames(manifest: Option<Content>) returns (errors: seq<TableError>, total: nat, withTable: nat)
    requires manifest.Some? && manifest.value.Json? ==> ManifestReadable(manifest.value.value)
    ensures manifest.None? ==> errors == [ManifestNotFound] && total == 0
    ensures manifest.Some? && manifest.value.Unparsable? ==> errors == [InvalidYaml] && total == 0
    ensures manifest.Some? && manifest.value.Json? ==>
      var xs := CountedAll(GroupsOf(manifest.value.value));
      errors == Errors(xs) && total == |xs| && withTable == CountTabled(xs)
  {
    if manifest.None? {
      return [ManifestNotFound], 0, 0;
    }
    if manifest.value.Unparsable? {
      return [InvalidYaml], 0, 0;
    }
    var ms := GroupsOf(manifest.value.value);
    var t := CountEntries(ms);
    FoldCounts(CountedAll(ms));
    var dups := ReportDuplicates(t.buckets);
    errors := t.errors + dups;
    total, withTable := t.total, t.withTable;
  }

  /** The loop over the duplicate dict: one error per table name with more than one owner. */
  method ReportDuplicates(bs: seq<Bucket>) returns (errors: seq<TableError>)
    ensures errors == DupErrors(bs)
  {
    errors := [];
    var k := 0;
    while k < |bs|
      invariant 0 <= k <= |bs|
      invariant errors == DupErrors(bs[..k])
    {
      PrefixInit(bs, k);
      if |bs[k].owners| > 1 {
        errors := errors + [DuplicateTableName(bs[k].tableName, bs[k].owners)];
      }
      k := k + 1;
    }
    PrefixAll(bs);
  }

  lemma CountedAllStep(ms: seq<Member>, i: int)
    requires 0 <= i < |ms|
    ensures CountedAll(ms[..i + 1]) == CountedAll(ms[..i]) + (if ms[i].value.JArr? then CountedIn(ms[i].key, ms[i].value.items) else [])
  {
    PrefixInit(ms, i);
  }

  lemma FoldAppend(xs: seq<Counted>, x: Counted)
    ensures Fold(xs + [x]) == Step(Fold(xs), x)
  {
    assert (xs + [x])[..|xs|] == xs;
  }

  /** The nested entry loop of `validate_table_names`. */
  method CountEntries(ms: seq<Member>) returns (t: Tally)
    ensures t == Fold(CountedAll(ms))
  {
    t := Tally([], 0, 0, []);
    var i := 0;
    while i < |ms|
      invariant 0 <= i <= |ms|
      invariant t == Fold(CountedAll(ms[..i]))
    {
      CountedAllStep(ms, i);
      var category, entries := ms[i].key, ms[i].value;
      if entries.JArr? {
        t := CountGroup(CountedAll(ms[..i]), category, entries.items, t);
      } else {
        assert CountedAll(ms[..i + 1]) == CountedAll(ms[..i]);
      }
      i := i + 1;
    }
    PrefixAll(ms);
  }

  /** The inner loop over one group's entries. */
  method CountGroup(ghost before: seq<Counted>, category: string, es: seq<Value>, t0: Tally) returns (t: Tally)
    requires t0 == Fold(before)
    ensures t == Fold(before + CountedIn(category, es))
  {
    t := t0;
    var j := 0;
    assert before + CountedIn(category, es[..0]) == before;
    while j < |es|
      invariant 0 <= j <= |es|
      invariant t == Fold(before + CountedIn(category, es[..j]))
    {
      PrefixInit(es, j);
      ghost var done := before + CountedIn(category, es[..j]);
      var entry := es[j];
      if entry.JObj? {
        var x := Counted(category, entry);
        assert before + CountedIn(category, es[..j + 1]) == done + [x];
        FoldAppend(done, x);
        var name := GetOr(entry, "name", JStr(""));
        var tableName := Get(entry, "table_name");
        if !Truthy(name) {
          t := t.(errors := t.errors + [MissingName(category)], total := t.total + 1);
        } else if !Truthy(tableName) {
          t := t.(errors := t.errors + [MissingTableName(category, name)], total := t.total + 1);
        } else {
          t := t.(total := t.total + 1, withTable := t.withTable + 1,
                  buckets := AddOwner(t.buckets, tableName, category + "." + Str(name)));
        }
      } else {
        assert before + CountedIn(category, es[..j + 1]) == done;
      }
      j := j + 1;
    }
    PrefixAll(es);
  }

  /** The exit decision of `main`. */
  function ExitStatus(errors: seq<TableError>): (code: int)
    ensures code == 0 || code == 1
    ensures code == 1 <==> errors != []
  {
    if errors != [] then 1 else 0
  }
}
