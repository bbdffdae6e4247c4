/**
 * Table maintenance in the `bq` package: the schema comparison `IsSameSchema`
 * and the decision `EnsureTable` takes between creating a table, updating its
 * schema and leaving it alone. The BigQuery API calls are not made here: their
 * results are parameters, and the write that would be issued is returned.
 */
module BqTables {
  import opened Wrappers
  import Util

  /** A column of a BigQuery schema; nested schemas are not compared and not modelled. */
  datatype FieldSchema = FieldSchema(name: string, fieldType: string, description: string, repeated: bool, required: bool)

  type Schema = seq<FieldSchema>

  /** The attributes the comparison looks at: the name and the type, nothing else. */
  predicate SameNameAndType(f: FieldSchema, g: FieldSchema) {
    f.name == g.name && f.fieldType == g.fieldType
  }

  /** Some column of `s` has the name and the type of `f`. */
  predicate HasColumn(s: Schema, f: FieldSchema) {
    exists j :: 0 <= j < |s| && SameNameAndType(f, s[j])
  }

  /** Every column of `s1` has a column with the same name and type in `s2`. */
  predicate Covers(s1: Schema, s2: Schema) {
    forall i :: 0 <= i < |s1| ==> HasColumn(s2, s1[i])
  }

  /**
   * `IsSameSchema(s1, s2)`: for each column of `s1`, search `s2` for one with
   * the same name and type, and give up at the first column that has none.
   */
  method IsSameSchema(s1: Schema, s2: Schema) returns (same: bool)
    ensures same <==> Covers(s1, s2)
  {
    for i := 0 to |s1|
      invariant forall k :: 0 <= k < i ==> HasColumn(s2, s1[k])
    {
      var found := false;
      for j := 0 to |s2|
        invariant !found
        invariant forall l :: 0 <= l < j ==> !SameNameAndType(s1[i], s2[l])
      {
        if s1[i].name == s2[j].name && s1[i].fieldType == s2[j].fieldType {
          assert SameNameAndType(s1[i], s2[j]);
          found := true;
          break;
        }
      }
      if !found {
        return false;
      }
    }
    return true;
  }

  // ---------------------------------------------------------------------------
  // What the comparison does and does not depend on

  /** An empty schema is covered by any schema. */
  lemma EmptyCovered(s2: Schema)
    ensures Covers([], s2)
  {
  }

  /** Every schema covers itself. */
  lemma CoversItself(s: Schema)
    ensures Covers(s, s)
  {
    forall i | 0 <= i < |s|
      ensures HasColumn(s, s[i])
    {
      assert SameNameAndType(s[i], s[i]);
    }
  }

  /** A column that can be found in `s2` can be found in any schema holding all of `s2`'s columns. */
  lemma HasColumnMonotone(s2: Schema, t2: Schema, f: FieldSchema)
    requires forall g :: g in s2 ==> g in t2
    requires HasColumn(s2, f)
    ensures HasColumn(t2, f)
  {
    var j :| 0 <= j < |s2| && SameNameAndType(f, s2[j]);
    assert s2[j] in t2;
    var k :| 0 <= k < |t2| && t2[k] == s2[j];
  }

  /**
   * Covering needs only which columns there are: fewer columns on the left or
   * more on the right, in any order, keep a schema covered.
   */
  lemma CoversMonotone(s1: Schema, s2: Schema, t1: Schema, t2: Schema)
    requires Covers(s1, s2)
    requires forall f :: f in t1 ==> f in s1
    requires forall g :: g in s2 ==> g in t2
    ensures Covers(t1, t2)
  {
    forall i | 0 <= i < |t1|
      ensures HasColumn(t2, t1[i])
    {
      assert t1[i] in s1;
      var k :| 0 <= k < |s1| && s1[k] == t1[i];
      HasColumnMonotone(s2, t2, t1[i]);
    }
  }

  /** The order of the columns, on either side, does not change the answer. */
  lemma OrderIrrelevant(s1: Schema, s2: Schema, t1: Schema, t2: Schema)
    requires multiset(s1) == multiset(t1) && multiset(s2) == multiset(t2)
    ensures Covers(s1, s2) <==> Covers(t1, t2)
  {
    forall f | f in t1 ensures f in s1 {
      assert f in multiset(t1);
    }
    forall f | f in s1 ensures f in t1 {
      assert f in multiset(s1);
    }
    forall g | g in s2 ensures g in t2 {
      assert g in multiset(s2);
    }
    forall g | g in t2 ensures g in s2 {
      assert g in multiset(t2);
    }
    if Covers(s1, s2) {
      CoversMonotone(s1, s2, t1, t2);
    }
    if Covers(t1, t2) {
      CoversMonotone(t1, t2, s1, s2);
    }
  }

  /**
   * Columns that only `s2` has, matching no column of `s1` by name and type,
   * do not change the answer.
   */
  lemma ExtraColumnsIrrelevant(s1: Schema, s2: Schema, extra: Schema)
    requires forall i, k :: 0 <= i < |s1| && 0 <= k < |extra| ==> !SameNameAndType(s1[i], extra[k])
    ensures Covers(s1, s2 + extra) <==> Covers(s1, s2)
  {
    if Covers(s1, s2) {
      CoversMonotone(s1, s2, s1, s2 + extra);
    }
    if Covers(s1, s2 + extra) {
      forall i | 0 <= i < |s1|
        ensures HasColumn(s2, s1[i])
      {
        var j :| 0 <= j < |s2 + extra| && SameNameAndType(s1[i], (s2 + extra)[j]);
        if j >= |s2| {
          assert false;
        }
      }
    }
  }

  /** A column of `s1` whose name `s2` lacks makes the schemas differ. */
  lemma MissingNameDiffers(s1: Schema, s2: Schema, i: nat)
    requires i < |s1|
    requires forall j :: 0 <= j < |s2| ==> s2[j].name != s1[i].name
    ensures !Covers(s1, s2)
  {
    assert !HasColumn(s2, s1[i]);
  }

  /** Only names and types are compared: descriptions and modes may differ freely. */
  lemma OtherAttributesIgnored(s1: Schema, s2: Schema, t2: Schema)
    requires |s2| == |t2|
    requires forall j :: 0 <= j < |s2| ==> s2[j].name == t2[j].name && s2[j].fieldType == t2[j].fieldType
    ensures Covers(s1, s2) <==> Covers(s1, t2)
  {
    if Covers(s1, s2) {
      forall i | 0 <= i < |s1| ensures HasColumn(t2, s1[i]) {
        var j :| 0 <= j < |s2| && SameNameAndType(s1[i], s2[j]);
        assert SameNameAndType(s1[i], t2[j]);
      }
    }
    if Covers(s1, t2) {
      forall i | 0 <= i < |s1| ensures HasColumn(s2, s1[i]) {
        var j :| 0 <= j < |t2| && SameNameAndType(s1[i], t2[j]);
        assert SameNameAndType(s1[i], s2[j]);
      }
    }
  }

  /** The comparison is one-directional: a schema with a column more is not covered by one without it. */
  lemma NotSymmetric()
    ensures var a := FieldSchema("a", "", "", false, false);
            var b := FieldSchema("b", "", "", false, false);
            Covers([a], [a, b]) && !Covers([a, b], [a])
  {
    var a := FieldSchema("a", "", "", false, false);
    var b := FieldSchema("b", "", "", false, false);
    assert SameNameAndType(a, [a, b][0]);
    MissingNameDiffers([a, b], [a], 1);
  }

  function Column(name: string): FieldSchema {
    FieldSchema(name, "", "", false, false)
  }

  /** The package's own cases: empty schemas, one shared column, two columns swapped, two different columns. */
  lemma SchemaExamples()
    ensures Covers([], [])
    ensures Covers([Column("a")], [Column("a")])
    ensures Covers([Column("a"), Column("b")], [Column("b"), Column("a")])
    ensures !Covers([Column("a")], [Column("b")])
  {
    CoversItself([Column("a")]);
    var ab, ba := [Column("a"), Column("b")], [Column("b"), Column("a")];
    assert SameNameAndType(ab[0], ba[1]) && SameNameAndType(ab[1], ba[0]);
    MissingNameDiffers([Column("a")], [Column("b")], 0);
  }

  // ---------------------------------------------------------------------------
  // EnsureTable

  /** The table metadata the model keeps: its name, description, schema and entity tag. */
  datatype Metadata = Metadata(name: string, description: string, schema: Schema, etag: string)

  const EmptyMetadata := Metadata("", "", [], "")

  /** The write `EnsureTable` issues after fetching the metadata. */
  datatype Write =
    | Create(meta: Metadata)
    | Update(schema: Schema, etag: string)

  /** What one run decides: the write it issues, if any, and whether it then panics. */
  datatype Ensured = Ensured(write: Option<Write>, outcome: Util.Outcome)

  /** The metadata a missing table is created with: `extraMeta` or empty metadata, with the schema set. */
  function CreateMetadata(schema: Schema, extraMeta: Option<Metadata>): (m: Metadata)
    ensures m.schema == schema
    ensures extraMeta.Some? ==> m == extraMeta.value.(schema := schema)
    ensures extraMeta.None? ==> m == EmptyMetadata.(schema := schema)
  {
    var meta := if extraMeta.Some? then extraMeta.value else EmptyMetadata;
    meta.(schema := schema)
  }

  /**
   * `EnsureTable(table, schema, extraMeta)`, given what the metadata fetch,
   * the create and the update calls return. A failed fetch is taken to mean the
   * table does not exist, so it is created; an existing table whose schema does
   * not cover `schema` has its schema updated under the fetched entity tag;
   * otherwise nothing is written. A failed write panics.
   */
  function EnsureTable(schema: Schema, extraMeta: Option<Metadata>, fetched: Result<Metadata, string>,
                       createErr: Option<string>, updateErr: Option<string>): (r: Ensured)
    ensures r.write.Some? <==> fetched.Err? || !Covers(schema, fetched.value.schema)
    ensures r.write.Some? && r.write.value.Create? ==> fetched.Err? && r.write.value.meta.schema == schema
    ensures r.write.Some? && r.write.value.Update? ==>
              fetched.Ok? && r.write.value == Update(schema, fetched.value.etag)
    ensures r.outcome.Panic? <==> (fetched.Err? && createErr.Some?) || (fetched.Ok? && r.write.Some? && updateErr.Some?)
  {
    if fetched.Err? then
      var write := Create(CreateMetadata(schema, extraMeta));
      if createErr.Some? then Ensured(Some(write), Util.Panic("Could not create BigQuery table" + createErr.value))
      else Ensured(Some(write), Util.Continue)
    else if !Covers(schema, fetched.value.schema) then
      var write := Update(schema, fetched.value.etag);
      if updateErr.Some? then Ensured(Some(write), Util.Panic("Could not update BigQuery table" + updateErr.value))
      else Ensured(Some(write), Util.Continue)
    else Ensured(None, Util.Continue)
  }

  /** The table as the service holds it: missing, or present with its metadata. */
  type TableState = Option<Metadata>

  /** A metadata fetch that reports the table as it is. */
  predicate FetchReports(state: TableState, fetched: Result<Metadata, string>) {
    if state.None? then fetched.Err? else fetched == Ok(state.value)
  }

  /** The table after a successful write. */
  function Apply(state: TableState, w: Option<Write>): TableState {
    match w
    case None => state
    case Some(Create(meta)) => Some(meta)
    case Some(Update(schema, _)) => if state.Some? then Some(state.value.(schema := schema)) else state
  }

  /**
   * A run that does not panic leaves a table whose schema covers `schema`, and
   * one that writes makes the schema exactly `schema`.
   */
  lemma EnsureTableConverges(state: TableState, schema: Schema, extraMeta: Option<Metadata>,
                             fetched: Result<Metadata, string>, createErr: Option<string>, updateErr: Option<string>)
    requires FetchReports(state, fetched)
    requires EnsureTable(schema, extraMeta, fetched, createErr, updateErr).outcome == Util.Continue
    ensures var r := EnsureTable(schema, extraMeta, fetched, createErr, updateErr);
            var after := Apply(state, r.write);
            after.Some? && Covers(schema, after.value.schema) &&
            (r.write.Some? ==> after.value.schema == schema)
  {
    var r := EnsureTable(schema, extraMeta, fetched, createErr, updateErr);
    if r.write.Some? {
      CoversItself(schema);
    }
  }

  /** Running `EnsureTable` again on the table a successful run left writes nothing. */
  lemma EnsureTableIdempotent(state: TableState, schema: Schema, extraMeta: Option<Metadata>,
                              fetched: Result<Metadata, string>, createErr: Option<string>, updateErr: Option<string>,
                              createErr2: Option<string>, updateErr2: Option<string>)
    requires FetchReports(state, fetched)
    requires EnsureTable(schema, extraMeta, fetched, createErr, updateErr).outcome == Util.Continue
    ensures var after := Apply(state, EnsureTable(schema, extraMeta, fetched, createErr, updateErr).write);
            after.Some? &&
            EnsureTable(schema, extraMeta, Ok(after.value), createErr2, updateErr2) == Ensured(None, Util.Continue)
  {
    EnsureTableConverges(state, schema, extraMeta, fetched, createErr, updateErr);
  }

  /** A missing table is created with `extraMeta` kept apart from its schema, or with empty metadata. */
  lemma CreateKeepsExtraMetadata(schema: Schema, extra: Metadata, err: string, createErr: Option<string>, updateErr: Option<string>)
    ensures var r := EnsureTable(schema, Some(extra), Err(err), createErr, updateErr);
            r.write == Some(Create(Metadata(extra.name, extra.description, schema, extra.etag)))
    ensures EnsureTable(schema, None, Err(err), createErr, updateErr).write == Some(Create(Metadata("", "", schema, "")))
  {
  }

  /** The package's cases: an outdated table is updated once, a missing one created once, a failed create panics. */
  lemma EnsureTableExamples(etag: string, err: string)
    ensures var id := [FieldSchema("id", "STRING", "", false, false)];
            var fetched := Metadata("mytable", "", [], etag);
            EnsureTable(id, None, Ok(fetched), None, None) == Ensured(Some(Update(id, etag)), Util.Continue)
    ensures var id := [FieldSchema("id", "STRING", "", false, false)];
            EnsureTable(id, None, Err(err), None, None) == Ensured(Some(Create(EmptyMetadata.(schema := id))), Util.Continue)
    ensures var id := [FieldSchema("id", "STRING", "", false, false)];
            EnsureTable(id, None, Err(err), Some("400"), None).outcome.Panic?
  {
    var id := [FieldSchema("id", "STRING", "", false, false)];
    MissingNameDiffers(id, [], 0);
  }
}
