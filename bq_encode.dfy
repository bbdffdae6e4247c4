/**
 * The row encoder of the `bq` package: `EncodeLegacy` turns a struct into the
 * map of JSON values a BigQuery streaming insert takes.
 *
 * Go reflection is replaced by a value tree: a struct is its list of fields,
 * each with its Go name, its `bigquery` tag, whether it is exported and whether
 * it is embedded; `time.Time`, pointers and comparable scalars are the other
 * kinds of value the encoder meets.
 */
module BqEncode {
  import opened Wrappers
  import TimeUtil

  datatype Scalar = Str(s: string) | Int(i: int) | Bool(b: bool)

  datatype Value =
    | Struct(fields: seq<Field>)
    | Timestamp(t: TimeUtil.Time)
    | Ptr(target: Option<Value>)
    | Scalar(x: Scalar)

  datatype Field = Field(name: string, tag: string, exported: bool, anonymous: bool, value: Value)

  /** A `bigquery.JsonValue`: nil, a Go value stored as it is, or a nested map. */
  datatype Json = Null | Leaf(v: Value) | Object(entries: map<string, Json>)

  type Row = map<string, Json>

  datatype EncodeError = UnsupportedType

  /** The zero `time.Time`: January 1 of year 1, 00:00:00 UTC. */
  const ZeroTime := TimeUtil.Time(TimeUtil.Date(1, 1, 1), 0, 0, 0, 0)

  /** `fieldInfo`: the `bigquery` tag when it is set, otherwise the Go field name. */
  function FieldKey(f: Field): string {
    if f.tag != "" then f.tag else f.name
  }

  /** Unexported fields and fields whose key is "-" are skipped. */
  predicate Skipped(f: Field) {
    !f.exported || FieldKey(f) == "-"
  }

  /**
   * The field's value as an `interface{}`: the pointee behind a pointer, nil
   * for a nil pointer, the value itself otherwise.
   */
  function Interface(v: Value): Json {
    match v
    case Ptr(t) => if t.Some? then Leaf(t.value) else Null
    case _ => Leaf(v)
  }

  /**
   * Whether that interface equals the zero value of the field's type. Behind a
   * pointer the interface holds the pointee's type, never the pointer type,
   * so a pointer field never compares equal, not even a pointer to a zero value.
   */
  predicate EqualsZero(v: Value) {
    match v
    case Ptr(_) => false
    case Scalar(x) => x == Str("") || x == Int(0) || x == Bool(false)
    case Timestamp(t) => t == ZeroTime
    case Struct(_) => false
  }

  /** What `omitEmpty` drops: a value equal to its type's zero, or nil. */
  predicate Dropped(v: Value) {
    EqualsZero(v) || Interface(v) == Null
  }

  /**
   * One turn of the field loop: a skipped field adds nothing; a struct field
   * (other than `time.Time`) is encoded in turn and merged into the row when
   * embedded, nested under its key otherwise; any other field is stored under
   * its key unless `omitEmpty` drops it.
   */
  function AddField(m: Row, f: Field, omitEmpty: bool): Row
    decreases f
  {
    if Skipped(f) then m
    else if f.value.Struct? then
      var inner := EncodeFields(f.value.fields, omitEmpty);
      if f.anonymous then m + inner else m[FieldKey(f) := Object(inner)]
    else if omitEmpty && Dropped(f.value) then m
    else m[FieldKey(f) := Interface(f.value)]
  }

  /** The row built from a struct's fields, in declaration order; a later write to a key wins. */
  function EncodeFields(fs: seq<Field>, omitEmpty: bool): Row
    decreases fs
  {
    if fs == [] then map[] else AddField(EncodeFields(fs[..|fs| - 1], omitEmpty), fs[|fs| - 1], omitEmpty)
  }

  /** `Elem().Interface()` panics on a nil pointer, so a pointer passed in must lead to a value. */
  predicate NoNilPointer(v: Value) {
    match v
    case Ptr(t) => t.Some? && NoNilPointer(t.value)
    case _ => true
  }

  /** The value at the end of a chain of pointers. */
  function Deref(v: Value): (r: Value)
    requires NoNilPointer(v)
    ensures !r.Ptr?
  {
    if v.Ptr? then Deref(v.target.value) else v
  }

  /**
   * `EncodeLegacy(v, omitEmpty)`: a pointer encodes as what it points to; a
   * struct as the row of its fields (`time.Time` is a struct whose fields are
   * all unexported, so its row is empty); anything else is an error.
   */
  function EncodeLegacy(v: Value, omitEmpty: bool): (r: Result<Row, EncodeError>)
    requires NoNilPointer(v)
    ensures r.Err? <==> Deref(v).Scalar?
    ensures Deref(v).Struct? ==> r == Ok(EncodeFields(Deref(v).fields, omitEmpty))
    ensures Deref(v).Timestamp? ==> r == Ok(map[])
  {
    match v
    case Struct(fs) => Ok(EncodeFields(fs, omitEmpty))
    case Timestamp(_) => Ok(map[])
    case Ptr(t) => EncodeLegacy(t.value, omitEmpty)
    case Scalar(_) => Err(UnsupportedType)
  }

  /** The copy loop for an embedded struct: every key of `mm` is written into `m`. */
  method Merge(m: Row, mm: Row) returns (r: Row)
    ensures r == m + mm
  {
    r := m;
    var todo := mm.Keys;
    while todo != {}
      invariant todo <= mm.Keys
      invariant r == m + map k | k in mm && k !in todo :: mm[k]
      decreases todo
    {
      var k :| k in todo;
      r := r[k := mm[k]];
      todo := todo - {k};
    }
    assert (map k | k in mm && k !in todo :: mm[k]) == mm;
  }

  /** `EncodeLegacy` as the source writes it: a loop over the fields that fills the row in place. */
  method Encode(v: Value, omitEmpty: bool) returns (r: Result<Row, EncodeError>)
    requires NoNilPointer(v)
    ensures r == EncodeLegacy(v, omitEmpty)
    decreases v
  {
    if v.Scalar? {
      return Err(UnsupportedType);
    }
    if v.Ptr? {
      r := Encode(v.target.value, omitEmpty);
      return;
    }
    var fields := if v.Struct? then v.fields else [];
    var m: Row := map[];
    for i := 0 to |fields|
      invariant m == EncodeFields(fields[..i], omitEmpty)
    {
      assert fields[..i + 1][..i] == fields[..i];
      var field := fields[i];
      var name := FieldKey(field);
      if !field.exported || name == "-" {
        continue;
      }
      var iface := Interface(field.value);
      if field.value.Struct? {
        var mm := Encode(field.value, omitEmpty);
        if mm.Ok? {
          if field.anonymous {
            m := Merge(m, mm.value);
          } else {
            m := m[name := Object(mm.value)];
          }
        }
      } else if !(omitEmpty && (EqualsZero(field.value) || iface == Null)) {
        m := m[name := iface];
      }
    }
    assert fields[..|fields|] == fields;
    r := Ok(m);
  }

  // ---------------------------------------------------------------------------
  // Which keys a row can have

  /** The keys one field can write: none when skipped, an embedded struct's keys, or its own key. */
  function FieldKeys(f: Field): set<string>
    decreases f
  {
    if Skipped(f) then {}
    else if f.value.Struct? && f.anonymous then ReachableKeys(f.value.fields)
    else {FieldKey(f)}
  }

  /** The keys a struct's fields can write. */
  function ReachableKeys(fs: seq<Field>): set<string>
    decreases fs
  {
    if fs == [] then {} else ReachableKeys(fs[..|fs| - 1]) + FieldKeys(fs[|fs| - 1])
  }

  /** Every key of a row comes from an exported field that is not excluded, possibly through embedding. */
  lemma {:induction false} KeysAreReachable(fs: seq<Field>, omitEmpty: bool)
    ensures EncodeFields(fs, omitEmpty).Keys <= ReachableKeys(fs)
    decreases fs
  {
    if fs != [] {
      var f := fs[|fs| - 1];
      KeysAreReachable(fs[..|fs| - 1], omitEmpty);
      if !Skipped(f) && f.value.Struct? && f.anonymous {
        KeysAreReachable(f.value.fields, omitEmpty);
      }
    }
  }

  lemma {:induction false} DashNotReachable(fs: seq<Field>)
    ensures "-" !in ReachableKeys(fs)
    decreases fs
  {
    if fs != [] {
      var f := fs[|fs| - 1];
      DashNotReachable(fs[..|fs| - 1]);
      if !Skipped(f) && f.value.Struct? && f.anonymous {
        DashNotReachable(f.value.fields);
      }
    }
  }

  /** A field tagged "-" never shows up: no row has the key "-". */
  lemma ExcludedNeverAppears(fs: seq<Field>, omitEmpty: bool)
    ensures "-" !in EncodeFields(fs, omitEmpty)
  {
    KeysAreReachable(fs, omitEmpty);
    DashNotReachable(fs);
  }

  /** Adding a field never removes a key. */
  lemma AddFieldKeeps(m: Row, f: Field, omitEmpty: bool)
    ensures m.Keys <= AddField(m, f, omitEmpty).Keys
  {
  }

  lemma {:induction false} EncodeFieldsGrows(fs: seq<Field>, j: nat, omitEmpty: bool)
    requires j <= |fs|
    ensures EncodeFields(fs[..j], omitEmpty).Keys <= EncodeFields(fs, omitEmpty).Keys
    decreases |fs| - j
  {
    if j < |fs| {
      EncodeFieldsGrows(fs, j + 1, omitEmpty);
      assert fs[..j + 1][..j] == fs[..j];
      AddFieldKeeps(EncodeFields(fs[..j], omitEmpty), fs[j], omitEmpty);
    } else {
      assert fs[..j] == fs;
    }
  }

  /** A kept field that is not embedded always has its key in the row (unless `omitEmpty` drops its value). */
  lemma FieldKeyPresent(fs: seq<Field>, i: nat, omitEmpty: bool)
    requires i < |fs| && !Skipped(fs[i]) && !(fs[i].value.Struct? && fs[i].anonymous)
    requires !(omitEmpty && !fs[i].value.Struct? && Dropped(fs[i].value))
    ensures FieldKey(fs[i]) in EncodeFields(fs, omitEmpty)
  {
    assert fs[..i + 1][..i] == fs[..i];
    assert FieldKey(fs[i]) in EncodeFields(fs[..i + 1], omitEmpty);
    EncodeFieldsGrows(fs, i + 1, omitEmpty);
  }

  /** What a kept, non-embedded field stores under its key. */
  function FieldEntry(f: Field, omitEmpty: bool): Json {
    if f.value.Struct? then Object(EncodeFields(f.value.fields, omitEmpty)) else Interface(f.value)
  }

  /** A field that cannot write `k` leaves the entry under `k` as it was. */
  lemma AddFieldOther(m: Row, f: Field, omitEmpty: bool, k: string)
    requires k in m && k !in FieldKeys(f)
    ensures k in AddField(m, f, omitEmpty) && AddField(m, f, omitEmpty)[k] == m[k]
  {
    if !Skipped(f) && f.value.Struct? && f.anonymous {
      KeysAreReachable(f.value.fields, omitEmpty);
    }
  }

  lemma {:induction false} LastWriterPrefix(fs: seq<Field>, i: nat, n: nat, omitEmpty: bool)
    requires i < n <= |fs| && !Skipped(fs[i]) && !(fs[i].value.Struct? && fs[i].anonymous)
    requires !(omitEmpty && !fs[i].value.Struct? && Dropped(fs[i].value))
    requires forall j :: i < j < |fs| ==> FieldKey(fs[i]) !in FieldKeys(fs[j])
    ensures FieldKey(fs[i]) in EncodeFields(fs[..n], omitEmpty)
    ensures EncodeFields(fs[..n], omitEmpty)[FieldKey(fs[i])] == FieldEntry(fs[i], omitEmpty)
    decreases n
  {
    assert fs[..n][..n - 1] == fs[..n - 1];
    if n > i + 1 {
      LastWriterPrefix(fs, i, n - 1, omitEmpty);
      AddFieldOther(EncodeFields(fs[..n - 1], omitEmpty), fs[n - 1], omitEmpty, FieldKey(fs[i]));
    }
  }

  /**
   * The entry under a kept, non-embedded field's key is that field's own
   * encoding (its nested row, its pointee, null, or its value), provided no
   * later field writes the same key.
   */
  lemma LastWriter(fs: seq<Field>, i: nat, omitEmpty: bool)
    requires i < |fs| && !Skipped(fs[i]) && !(fs[i].value.Struct? && fs[i].anonymous)
    requires !(omitEmpty && !fs[i].value.Struct? && Dropped(fs[i].value))
    requires forall j :: i < j < |fs| ==> FieldKey(fs[i]) !in FieldKeys(fs[j])
    ensures FieldKey(fs[i]) in EncodeFields(fs, omitEmpty)
    ensures EncodeFields(fs, omitEmpty)[FieldKey(fs[i])] == FieldEntry(fs[i], omitEmpty)
  {
    LastWriterPrefix(fs, i, |fs|, omitEmpty);
    assert fs[..|fs|] == fs;
  }

  /** An embedded struct's keys all reach the row, each with the embedded struct's entry if nothing after it writes that key. */
  lemma EmbeddedKeysMerged(fs: seq<Field>, f: Field, omitEmpty: bool)
    requires !Skipped(f) && f.value.Struct? && f.anonymous
    ensures EncodeFields(fs + [f], omitEmpty) == EncodeFields(fs, omitEmpty) + EncodeFields(f.value.fields, omitEmpty)
    ensures EncodeFields(f.value.fields, omitEmpty).Keys <= EncodeFields(fs + [f], omitEmpty).Keys
  {
    assert (fs + [f])[..|fs|] == fs;
  }

  // ---------------------------------------------------------------------------
  // omitEmpty

  /** `omitEmpty` only ever drops keys: it never adds one. */
  lemma {:induction false} OmitEmptyOnlyDrops(fs: seq<Field>)
    ensures EncodeFields(fs, true).Keys <= EncodeFields(fs, false).Keys
    decreases fs
  {
    if fs != [] {
      var f := fs[|fs| - 1];
      OmitEmptyOnlyDrops(fs[..|fs| - 1]);
      if !Skipped(f) && f.value.Struct? && f.anonymous {
        OmitEmptyOnlyDrops(f.value.fields);
      }
    }
  }

  /** A field that cannot write `k` does not add it. */
  lemma AddFieldAbsent(m: Row, f: Field, omitEmpty: bool, k: string)
    requires k !in m && k !in FieldKeys(f)
    ensures k !in AddField(m, f, omitEmpty)
  {
    if !Skipped(f) && f.value.Struct? && f.anonymous {
      KeysAreReachable(f.value.fields, omitEmpty);
    }
  }

  lemma {:induction false} DroppedFieldAbsentPrefix(fs: seq<Field>, i: nat, n: nat)
    requires i < |fs| && n <= |fs| && !fs[i].value.Struct? && Dropped(fs[i].value)
    requires forall j :: 0 <= j < |fs| && j != i ==> FieldKey(fs[i]) !in FieldKeys(fs[j])
    ensures FieldKey(fs[i]) !in EncodeFields(fs[..n], true)
    decreases n
  {
    if n > 0 {
      assert fs[..n][..n - 1] == fs[..n - 1];
      DroppedFieldAbsentPrefix(fs, i, n - 1);
      if n - 1 != i {
        AddFieldAbsent(EncodeFields(fs[..n - 1], true), fs[n - 1], true, FieldKey(fs[i]));
      }
    }
  }

  /**
   * With `omitEmpty`, a field whose value is empty (zero or nil) leaves no key
   * in the row, provided no other field writes the same key.
   */
  lemma DroppedFieldAbsent(fs: seq<Field>, i: nat)
    requires i < |fs| && !fs[i].value.Struct? && Dropped(fs[i].value)
    requires forall j :: 0 <= j < |fs| && j != i ==> FieldKey(fs[i]) !in FieldKeys(fs[j])
    ensures FieldKey(fs[i]) !in EncodeFields(fs, true)
  {
    DroppedFieldAbsentPrefix(fs, i, |fs|);
    assert fs[..|fs|] == fs;
  }

  /** With `omitEmpty` no entry of the row is null: nil pointers are dropped. */
  lemma {:induction false} OmitEmptyNoNull(fs: seq<Field>)
    ensures forall k :: k in EncodeFields(fs, true) ==> EncodeFields(fs, true)[k] != Null
    decreases fs
  {
    if fs != [] {
      var f := fs[|fs| - 1];
      var m := EncodeFields(fs[..|fs| - 1], true);
      OmitEmptyNoNull(fs[..|fs| - 1]);
      if !Skipped(f) && f.value.Struct? && f.anonymous {
        var inner := EncodeFields(f.value.fields, true);
        OmitEmptyNoNull(f.value.fields);
        assert forall k :: k in m + inner ==> (m + inner)[k] == (if k in inner then inner[k] else m[k]);
      }
    }
  }

  // ---------------------------------------------------------------------------
  // The package's own examples

  /** The row of a fixed list of fields, written out one field at a time. */
  lemma EncodeFieldsUnrolled(fs: seq<Field>, o: bool)
    requires 1 <= |fs| <= 4
    ensures |fs| == 1 ==> EncodeFields(fs, o) == AddField(map[], fs[0], o)
    ensures |fs| == 2 ==> EncodeFields(fs, o) == AddField(AddField(map[], fs[0], o), fs[1], o)
    ensures |fs| == 4 ==>
      EncodeFields(fs, o) == AddField(AddField(AddField(AddField(map[], fs[0], o), fs[1], o), fs[2], o), fs[3], o)
  {
    assert fs[..1][..0] == [];
    if |fs| >= 2 {
      assert fs[..2][..1] == fs[..1];
    }
    if |fs| == 4 {
      assert fs[..3][..2] == fs[..2];
      assert fs[..4][..3] == fs[..3];
      assert fs[..4] == fs;
    }
    if |fs| == 2 {
      assert fs[..2] == fs;
    }
    if |fs| == 1 {
      assert fs[..1] == fs;
    }
  }

  function StrField(name: string, tag: string, s: string): Field {
    Field(name, tag, true, false, Scalar(Str(s)))
  }

  /** A struct with a plain field, two renamed by their tags and one excluded. */
  function TestStruct(a: string, b: string, c: string): Value {
    Struct([StrField("A", "", a), StrField("B", "foo", b), StrField("C", "bar", c), StrField("Excluded", "-", "")])
  }

  function StrLeaf(s: string): Json {
    Leaf(Scalar(Str(s)))
  }

  /** Tags rename keys, "-" excludes, and `omitEmpty` decides whether an empty string is kept. */
  lemma TagExamples()
    ensures EncodeLegacy(TestStruct("hello", "world", "it works"), true) ==
            Ok(map["A" := StrLeaf("hello"), "foo" := StrLeaf("world"), "bar" := StrLeaf("it works")])
    ensures EncodeLegacy(TestStruct("hello", "world", ""), true) ==
            Ok(map["A" := StrLeaf("hello"), "foo" := StrLeaf("world")])
    ensures EncodeLegacy(TestStruct("hello", "world", ""), false) ==
            Ok(map["A" := StrLeaf("hello"), "foo" := StrLeaf("world"), "bar" := StrLeaf("")])
  {
    EncodeFieldsUnrolled(TestStruct("hello", "world", "it works").fields, true);
    EncodeFieldsUnrolled(TestStruct("hello", "world", "").fields, true);
    EncodeFieldsUnrolled(TestStruct("hello", "world", "").fields, false);
  }

  /** The row of the example struct with no empty field. */
  lemma TestStructRow(a: string, b: string, c: string)
    requires a != "" && b != "" && c != ""
    ensures EncodeFields(TestStruct(a, b, c).fields, true) == map["A" := StrLeaf(a), "foo" := StrLeaf(b), "bar" := StrLeaf(c)]
  {
    EncodeFieldsUnrolled(TestStruct(a, b, c).fields, true);
  }

  /** An embedded struct's keys join the row. */
  lemma EmbeddedExample()
    ensures EncodeLegacy(Struct([StrField("D", "", "single"),
                                 Field("TestStruct", "", true, true, TestStruct("embedded", "struct", "also works"))]), true) ==
            Ok(map["A" := StrLeaf("embedded"), "foo" := StrLeaf("struct"), "bar" := StrLeaf("also works"),
                   "D" := StrLeaf("single")])
  {
    var e := TestStruct("embedded", "struct", "also works");
    TestStructRow("embedded", "struct", "also works");
    EncodeFieldsUnrolled([StrField("D", "", "single"), Field("TestStruct", "", true, true, e)], true);
    assert map["D" := StrLeaf("single")] + map["A" := StrLeaf("embedded"), "foo" := StrLeaf("struct"), "bar" := StrLeaf("also works")] ==
           map["A" := StrLeaf("embedded"), "foo" := StrLeaf("struct"), "bar" := StrLeaf("also works"), "D" := StrLeaf("single")];
  }

  /** A named struct field nests its own row under its key. */
  lemma NestedExample()
    ensures EncodeLegacy(Struct([StrField("Field", "", "single"),
                                 Field("Nested", "", true, false, TestStruct("nested", "struct", "also works"))]), true) ==
            Ok(map["Field" := StrLeaf("single"),
                   "Nested" := Object(map["A" := StrLeaf("nested"), "foo" := StrLeaf("struct"), "bar" := StrLeaf("also works")])])
  {
    var n := TestStruct("nested", "struct", "also works");
    TestStructRow("nested", "struct", "also works");
    EncodeFieldsUnrolled([StrField("Field", "", "single"), Field("Nested", "", true, false, n)], true);
  }

  /** A `time.Time` field is stored as it is, and dropped by `omitEmpty` when it is the zero time. */
  lemma TimeExamples()
    ensures var t := TimeUtil.Time(TimeUtil.Date(2016, 12, 29), 0, 0, 0, 0);
            EncodeLegacy(Struct([StrField("Field", "", "my field value"), Field("Time", "", true, false, Timestamp(t))]), true) ==
            Ok(map["Field" := StrLeaf("my field value"), "Time" := Leaf(Timestamp(t))])
    ensures EncodeLegacy(Struct([StrField("Field", "", "my field value"), Field("Time", "", true, false, Timestamp(ZeroTime))]), true) ==
            Ok(map["Field" := StrLeaf("my field value")])
  {
    var t := TimeUtil.Time(TimeUtil.Date(2016, 12, 29), 0, 0, 0, 0);
    EncodeFieldsUnrolled([StrField("Field", "", "my field value"), Field("Time", "", true, false, Timestamp(t))], true);
    EncodeFieldsUnrolled([StrField("Field", "", "my field value"), Field("Time", "", true, false, Timestamp(ZeroTime))], true);
  }

  function PointerStruct(a: Option<Value>, b: Option<Value>): Value {
    Struct([Field("A", "", true, false, Ptr(a)), Field("B", "foo", true, false, Ptr(b))])
  }

  /** Nil pointers are null, or dropped by `omitEmpty`; other pointers store what they point to. */
  lemma PointerExamples()
    ensures EncodeLegacy(PointerStruct(None, None), false) == Ok(map["A" := Null, "foo" := Null])
    ensures EncodeLegacy(PointerStruct(None, None), true) == Ok(map[])
    ensures EncodeLegacy(PointerStruct(Some(Scalar(Int(123))), Some(Scalar(Int(456)))), true) ==
            Ok(map["A" := Leaf(Scalar(Int(123))), "foo" := Leaf(Scalar(Int(456)))])
  {
    EncodeFieldsUnrolled(PointerStruct(None, None).fields, false);
    EncodeFieldsUnrolled(PointerStruct(None, None).fields, true);
    EncodeFieldsUnrolled(PointerStruct(Some(Scalar(Int(123))), Some(Scalar(Int(456)))).fields, true);
  }
}
