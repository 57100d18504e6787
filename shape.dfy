/**
 * The example-shape resolver (internal/build/template.go:52-181): a registry of named
 * objects (a fixed table of well-known types, then every enum and message, then every
 * scalar, later registrations replacing earlier ones under the same name), and the
 * recursive computation of a message's example shape from it. Also the depth truncation
 * applied before a shape is printed (`deepJSONObject`, internal/build/template.go:460-488).
 *
 * Go recurses without a bound and never returns on a cycle of messages it follows; here the
 * recursion is justified by a ghost `rank` under which every field of a registered message
 * refers to registered messages of smaller rank (`Ranked`). That also excludes cycles the code
 * never reaches because an earlier field fails.
 */
module Shapes {
  import opened Wrappers
  import opened Model

  /**
   * A registered object. Only what the resolver reads is kept: a well-known type's fixed
   * shape, that something is an enum, a message's fields, and a scalar's protobuf type.
   */
  datatype Entry = WellKnown(shape: Json) | EnumEntry | MessageEntry(fields: seq<Field>) | ScalarEntry(protoType: string)

  type Registry = map<string, Entry>

  datatype ShapeError =
    | UnknownObject(name: string)
    | UnknownScalar(protoType: string)
    | MapKeyNotScalar(keyFullType: string)

  const Int64Pair: Json := JObj(map["seconds" := JStr("int64"), "nanos" := JStr("int32")])

  /** The table the registry starts from. */
  function WellKnownTable(): Registry {
    map[
      "google.protobuf.BoolValue" := WellKnown(JStr("bool")),
      "google.protobuf.Int32Value" := WellKnown(JStr("int32")),
      "google.protobuf.Int64Value" := WellKnown(JStr("int64")),
      "google.protobuf.UInt32Value" := WellKnown(JStr("uint32")),
      "google.protobuf.UInt64Value" := WellKnown(JStr("uint64")),
      "google.protobuf.FloatValue" := WellKnown(JStr("float")),
      "google.protobuf.DoubleValue" := WellKnown(JStr("double")),
      "google.protobuf.StringValue" := WellKnown(JStr("string")),
      "google.protobuf.BytesValue" := WellKnown(JStr("bytes")),
      "google.protobuf.Duration" := WellKnown(Int64Pair),
      "google.protobuf.Timestamp" := WellKnown(Int64Pair),
      "google.protobuf.Value" := WellKnown(JStr("any json object or any json array, same as interface{}")),
      "google.protobuf.ListValue" := WellKnown(JList([JStr("any json object or any json array, same as []interface{}")])),
      "google.protobuf.Struct" := WellKnown(JObj(map["string" := JStr("any json object or any json array, same as map[string]interface{}")]))
    ]
  }

  // Registration

  /** One registration: a name and what is registered under it. */
  datatype Decl = Decl(name: string, entry: Entry)

  function EnumDecls(enums: seq<Enum>): seq<Decl> {
    seq(|enums|, k requires 0 <= k < |enums| => Decl(enums[k].fullName, EnumEntry))
  }

  function MessageDecls(messages: seq<Message>): seq<Decl> {
    seq(|messages|, k requires 0 <= k < |messages| => Decl(messages[k].fullName, MessageEntry(messages[k].fields)))
  }

  /** The registrations of the files, in order: per file its enums, then its messages. */
  function FileDecls(files: seq<File>): seq<Decl> {
    if |files| == 0 then []
    else FileDecls(files[..|files| - 1]) + OneFileDecls(files[|files| - 1])
  }

  function OneFileDecls(file: File): seq<Decl> {
    EnumDecls(file.enums) + MessageDecls(file.messages)
  }

  function ScalarDecls(scalars: seq<ScalarValue>): seq<Decl> {
    seq(|scalars|, k requires 0 <= k < |scalars| => Decl(scalars[k].protoType, ScalarEntry(scalars[k].protoType)))
  }

  /** Registering in order; a later registration replaces an earlier one. */
  function Put(reg: Registry, decls: seq<Decl>): Registry {
    if |decls| == 0 then reg
    else Put(reg, decls[..|decls| - 1])[decls[|decls| - 1].name := decls[|decls| - 1].entry]
  }

  /** The `objects` map of `buildMessagesJsonString`. */
  function RegistryOf(files: seq<File>, scalars: seq<ScalarValue>): Registry {
    Put(WellKnownTable(), FileDecls(files) + ScalarDecls(scalars))
  }

  /** The last registration under `name`, if any. */
  function LastDecl(decls: seq<Decl>, name: string): Option<Entry> {
    if |decls| == 0 then None
    else if decls[|decls| - 1].name == name then Some(decls[|decls| - 1].entry)
    else LastDecl(decls[..|decls| - 1], name)
  }

  /** What a registry built by `Put` holds under a name: the last registration, else the start's entry. */
  lemma {:induction false} PutLookup(reg: Registry, decls: seq<Decl>, name: string)
    ensures name in Put(reg, decls) <==> name in reg || LastDecl(decls, name).Some?
    ensures LastDecl(decls, name).Some? ==> Put(reg, decls)[name] == LastDecl(decls, name).value
    ensures LastDecl(decls, name).None? && name in reg ==> Put(reg, decls)[name] == reg[name]
  {
    if |decls| > 0 {
      PutLookup(reg, decls[..|decls| - 1], name);
    }
  }

  /** One more registration updates the map under its name. */
  lemma PutSnoc(reg: Registry, decls: seq<Decl>, d: Decl)
    ensures Put(reg, decls + [d]) == Put(reg, decls)[d.name := d.entry]
  {
    assert (decls + [d])[..|decls|] == decls;
  }

  /** Registering two lists in a row is registering their concatenation. */
  lemma {:induction false} PutAppend(reg: Registry, a: seq<Decl>, b: seq<Decl>)
    ensures Put(reg, a + b) == Put(Put(reg, a), b)
  {
    if |b| == 0 {
      assert a + b == a;
    } else {
      var n := |b| - 1;
      assert (a + b)[..|a + b| - 1] == a + b[..n];
      PutAppend(reg, a, b[..n]);
    }
  }

  lemma EnumDeclsSnoc(enums: seq<Enum>, k: nat)
    requires k < |enums|
    ensures EnumDecls(enums[..k + 1]) == EnumDecls(enums[..k]) + [Decl(enums[k].fullName, EnumEntry)]
  {
  }

  lemma MessageDeclsSnoc(messages: seq<Message>, k: nat)
    requires k < |messages|
    ensures MessageDecls(messages[..k + 1]) == MessageDecls(messages[..k]) + [Decl(messages[k].fullName, MessageEntry(messages[k].fields))]
  {
  }

  lemma ScalarDeclsSnoc(scalars: seq<ScalarValue>, k: nat)
    requires k < |scalars|
    ensures ScalarDecls(scalars[..k + 1]) == ScalarDecls(scalars[..k]) + [Decl(scalars[k].protoType, ScalarEntry(scalars[k].protoType))]
  {
  }

  lemma FileDeclsSnoc(files: seq<File>, i: nat)
    requires i < |files|
    ensures FileDecls(files[..i + 1]) == FileDecls(files[..i]) + OneFileDecls(files[i])
  {
    assert files[..i + 1][..i] == files[..i];
  }

  lemma {:induction false} LastDeclAppend(a: seq<Decl>, b: seq<Decl>, name: string)
    ensures LastDecl(a + b, name) == if LastDecl(b, name).Some? then LastDecl(b, name) else LastDecl(a, name)
  {
    if |b| == 0 {
      assert a + b == a;
    } else {
      assert (a + b)[..|a + b| - 1] == a + b[..|b| - 1];
      LastDeclAppend(a, b[..|b| - 1], name);
    }
  }

  lemma {:induction false} LastScalarDecl(scalars: seq<ScalarValue>, name: string)
    ensures LastDecl(ScalarDecls(scalars), name).Some? <==> exists k :: 0 <= k < |scalars| && scalars[k].protoType == name
    ensures LastDecl(ScalarDecls(scalars), name).Some? ==> LastDecl(ScalarDecls(scalars), name).value == ScalarEntry(name)
  {
    if |scalars| > 0 {
      var init := scalars[..|scalars| - 1];
      assert ScalarDecls(scalars)[..|scalars| - 1] == ScalarDecls(init);
      LastScalarDecl(init, name);
      if exists k :: 0 <= k < |init| && init[k].protoType == name {
        var k :| 0 <= k < |init| && init[k].protoType == name;
        assert scalars[k].protoType == name;
      }
      if exists k :: 0 <= k < |scalars| && scalars[k].protoType == name {
        var k :| 0 <= k < |scalars| && scalars[k].protoType == name;
        if k < |init| {
          assert init[k].protoType == name;
        }
      }
    }
  }

  /** Every scalar is registered under its protobuf type, over whatever came before. */
  lemma RegistryScalarsWin(files: seq<File>, scalars: seq<ScalarValue>, k: nat)
    requires k < |scalars|
    ensures scalars[k].protoType in RegistryOf(files, scalars)
    ensures RegistryOf(files, scalars)[scalars[k].protoType] == ScalarEntry(scalars[k].protoType)
  {
    var p := scalars[k].protoType;
    LastScalarDecl(scalars, p);
    LastDeclAppend(FileDecls(files), ScalarDecls(scalars), p);
    PutLookup(WellKnownTable(), FileDecls(files) + ScalarDecls(scalars), p);
  }

  /** Some enum or message of the file is called `name`. */
  predicate DeclaredIn(file: File, name: string) {
    (exists k :: 0 <= k < |file.enums| && file.enums[k].fullName == name) ||
    (exists k :: 0 <= k < |file.messages| && file.messages[k].fullName == name)
  }

  /** Some enum or message of the files is called `name`. */
  predicate Declared(files: seq<File>, name: string) {
    exists i :: 0 <= i < |files| && DeclaredIn(files[i], name)
  }

  lemma OneFileDeclsNames(file: File, name: string)
    ensures LastDecl(OneFileDecls(file), name).Some? <==> DeclaredIn(file, name)
  {
    LastDeclAppend(EnumDecls(file.enums), MessageDecls(file.messages), name);
    LastDeclIn(EnumDecls(file.enums), name);
    LastDeclIn(MessageDecls(file.messages), name);
    if exists k :: 0 <= k < |file.enums| && file.enums[k].fullName == name {
      var k :| 0 <= k < |file.enums| && file.enums[k].fullName == name;
      assert EnumDecls(file.enums)[k].name == name;
    }
    if exists k :: 0 <= k < |file.messages| && file.messages[k].fullName == name {
      var k :| 0 <= k < |file.messages| && file.messages[k].fullName == name;
      assert MessageDecls(file.messages)[k].name == name;
    }
  }

  lemma {:induction false} LastFileDecl(files: seq<File>, name: string)
    ensures LastDecl(FileDecls(files), name).Some? <==> Declared(files, name)
  {
    if |files| > 0 {
      var init := files[..|files| - 1];
      var last := files[|files| - 1];
      LastFileDecl(init, name);
      LastDeclAppend(FileDecls(init), OneFileDecls(last), name);
      OneFileDeclsNames(last, name);
      if Declared(init, name) {
        var i :| 0 <= i < |init| && DeclaredIn(init[i], name);
        assert files[i] == init[i];
      }
      if Declared(files, name) {
        var i :| 0 <= i < |files| && DeclaredIn(files[i], name);
        if i < |init| {
          assert init[i] == files[i];
        }
      }
    }
  }

  lemma {:induction false} LastDeclIn(decls: seq<Decl>, name: string)
    ensures LastDecl(decls, name).Some? <==> exists k :: 0 <= k < |decls| && decls[k].name == name
  {
    if |decls| > 0 {
      var init := decls[..|decls| - 1];
      LastDeclIn(init, name);
      if exists k :: 0 <= k < |init| && init[k].name == name {
        var k :| 0 <= k < |init| && init[k].name == name;
        assert decls[k].name == name;
      }
      if exists k :: 0 <= k < |decls| && decls[k].name == name {
        var k :| 0 <= k < |decls| && decls[k].name == name;
        if k < |init| {
          assert init[k].name == name;
        }
      }
    }
  }

  /**
   * A name is registered exactly when it is well known, declared by an enum or message of
   * the files, or the protobuf type of a scalar; a well-known name nobody redeclares keeps
   * its table entry.
   */
  lemma RegistryNames(files: seq<File>, scalars: seq<ScalarValue>, name: string)
    ensures name in RegistryOf(files, scalars) <==>
      name in WellKnownTable() || Declared(files, name) || exists k :: 0 <= k < |scalars| && scalars[k].protoType == name
    ensures name in WellKnownTable() && !Declared(files, name) && (forall k | 0 <= k < |scalars| :: scalars[k].protoType != name) ==>
      RegistryOf(files, scalars)[name] == WellKnownTable()[name]
  {
    LastFileDecl(files, name);
    LastScalarDecl(scalars, name);
    LastDeclAppend(FileDecls(files), ScalarDecls(scalars), name);
    PutLookup(WellKnownTable(), FileDecls(files) + ScalarDecls(scalars), name);
  }

  // Resolution

  /** The protobuf kinds `fromScalarValue` accepts: 13 of them, fixed32 and fixed64 are not among them. */
  const ScalarKinds: set<string> :=
    {"float", "double", "int32", "int64", "sint32", "sint64", "sfixed32", "sfixed64", "uint32", "uint64", "bool", "string", "bytes"}

  /** `fromEnum`: every enum is shown as an int64. */
  function FromEnum(): Json {
    JStr("int64")
  }

  function FromScalarValue(protoType: string): (r: Result<Json, ShapeError>)
    ensures r.Ok? <==> protoType in ScalarKinds
    ensures r.Ok? ==> r.value == JStr(protoType)
    ensures r.Err? ==> r.error == UnknownScalar(protoType)
  {
    if protoType in ScalarKinds then Ok(JStr(protoType)) else Err(UnknownScalar(protoType))
  }

  /** The two fixed-width unsigned kinds are refused by the code. */
  lemma FixedKindsRejected()
    ensures FromScalarValue("fixed32") == Err(UnknownScalar("fixed32"))
    ensures FromScalarValue("fixed64") == Err(UnknownScalar("fixed64"))
    ensures FromScalarValue("sfixed32") == Ok(JStr("sfixed32"))
  {
  }

  function RankOf(reg: Registry, rank: map<string, nat>, name: string): nat {
    if name in reg && reg[name].MessageEntry? && name in rank then rank[name] + 1 else 0
  }

  /** The references a field resolves: its type, and its key type when it is a map. */
  predicate FieldBelow(reg: Registry, rank: map<string, nat>, f: Field, bound: nat) {
    RankOf(reg, rank, f.fullType) <= bound &&
    (f.isMap && !f.isArray ==> RankOf(reg, rank, f.keyFullType) <= bound)
  }

  predicate FieldsBelow(reg: Registry, rank: map<string, nat>, fields: seq<Field>, bound: nat) {
    forall k | 0 <= k < |fields| :: FieldBelow(reg, rank, fields[k], bound)
  }

  /**
   * Every registered message refers only to registered messages of smaller rank. This rules out
   * every cycle among registered messages, also one the code never follows because an earlier
   * field of the message already fails to resolve.
   */
  ghost predicate Ranked(reg: Registry, rank: map<string, nat>) {
    forall name | name in reg && reg[name].MessageEntry? ::
      name in rank && FieldsBelow(reg, rank, reg[name].fields, rank[name])
  }

  /** `fromObjectName`: the shape registered under `name`. */
  function ShapeOf(reg: Registry, ghost rank: map<string, nat>, name: string): Result<Json, ShapeError>
    requires Ranked(reg, rank)
    decreases RankOf(reg, rank, name), 1, 0
  {
    if name !in reg then Err(UnknownObject(name))
    else
      match reg[name]
      case WellKnown(shape) => Ok(shape)
      case EnumEntry => Ok(FromEnum())
      case ScalarEntry(protoType) => FromScalarValue(protoType)
      case MessageEntry(fields) =>
        var o :- FromFields(reg, rank, fields, rank[name]);
        Ok(JObj(o))
  }

  /** The shape of one field of `fromMessage`'s loop. */
  function FieldShape(reg: Registry, ghost rank: map<string, nat>, f: Field, ghost bound: nat): Result<Json, ShapeError>
    requires Ranked(reg, rank) && FieldBelow(reg, rank, f, bound)
    decreases bound + 1, 0, 0
  {
    var v :- ShapeOf(reg, rank, f.fullType);
    if f.isArray then Ok(JList([v]))
    else if f.isMap then
      if ShapeOf(reg, rank, f.keyFullType).Err? then Err(MapKeyNotScalar(f.keyFullType))
      else Ok(JObj(map["string" := v]))
    else Ok(v)
  }

  /** `fromMessage`: the fields in order, the first error aborting, a later name overwriting. */
  function FromFields(reg: Registry, ghost rank: map<string, nat>, fields: seq<Field>, ghost bound: nat): Result<map<string, Json>, ShapeError>
    requires Ranked(reg, rank) && FieldsBelow(reg, rank, fields, bound)
    decreases bound + 1, 0, |fields|
  {
    if |fields| == 0 then Ok(map[])
    else
      var last := fields[|fields| - 1];
      var init :- FromFields(reg, rank, fields[..|fields| - 1], bound);
      var v :- FieldShape(reg, rank, last, bound);
      Ok(init[last.name := v])
  }

  /** A bound high enough for every reference of `fields`, for a top-level message. */
  function FieldsBound(reg: Registry, rank: map<string, nat>, fields: seq<Field>): (b: nat)
    ensures FieldsBelow(reg, rank, fields, b)
  {
    if |fields| == 0 then 0
    else
      var init := FieldsBound(reg, rank, fields[..|fields| - 1]);
      var f := fields[|fields| - 1];
      var own := if f.isMap && !f.isArray then RankOf(reg, rank, f.keyFullType) else 0;
      var b := if init >= RankOf(reg, rank, f.fullType) && init >= own then init
               else if RankOf(reg, rank, f.fullType) >= own then RankOf(reg, rank, f.fullType) else own;
      assert forall k | 0 <= k < |fields| - 1 :: fields[k] == fields[..|fields| - 1][k];
      b
  }

  /** The shape of a message with these fields, as `buildMessagesJsonString` asks for it. */
  function MessageShape(reg: Registry, ghost rank: map<string, nat>, fields: seq<Field>): Result<map<string, Json>, ShapeError>
    requires Ranked(reg, rank)
  {
    FromFields(reg, rank, fields, FieldsBound(reg, rank, fields))
  }

  function FieldNames(fields: seq<Field>): set<string> {
    set k | 0 <= k < |fields| :: fields[k].name
  }

  /** The bound only justifies termination: the shape does not depend on it. */
  lemma {:induction false} FromFieldsBoundFree(reg: Registry, rank: map<string, nat>, fields: seq<Field>, b1: nat, b2: nat)
    requires Ranked(reg, rank) && FieldsBelow(reg, rank, fields, b1) && FieldsBelow(reg, rank, fields, b2)
    ensures FromFields(reg, rank, fields, b1) == FromFields(reg, rank, fields, b2)
  {
    if |fields| > 0 {
      FromFieldsBoundFree(reg, rank, fields[..|fields| - 1], b1, b2);
    }
  }

  /** A message's shape, once resolved, is an object keyed by exactly its field names. */
  lemma {:induction false} FromFieldsKeys(reg: Registry, rank: map<string, nat>, fields: seq<Field>, bound: nat)
    requires Ranked(reg, rank) && FieldsBelow(reg, rank, fields, bound)
    ensures FromFields(reg, rank, fields, bound).Ok? ==> FromFields(reg, rank, fields, bound).value.Keys == FieldNames(fields)
  {
    if |fields| > 0 {
      var init := fields[..|fields| - 1];
      FromFieldsKeys(reg, rank, init, bound);
      assert FieldNames(fields) == FieldNames(init) + {fields[|fields| - 1].name} by {
        assert forall k | 0 <= k < |init| :: init[k] == fields[k];
      }
    }
  }

  /** A message resolves exactly when every one of its fields does. */
  lemma {:induction false} FromFieldsOk(reg: Registry, rank: map<string, nat>, fields: seq<Field>, bound: nat)
    requires Ranked(reg, rank) && FieldsBelow(reg, rank, fields, bound)
    ensures FromFields(reg, rank, fields, bound).Ok? <==> forall k | 0 <= k < |fields| :: FieldShape(reg, rank, fields[k], bound).Ok?
  {
    if |fields| > 0 {
      var init := fields[..|fields| - 1];
      FromFieldsOk(reg, rank, init, bound);
      assert forall k | 0 <= k < |init| :: init[k] == fields[k];
    }
  }

  /**
   * When a message does not resolve, its error is that of the first field that does not:
   * the returned index `k` fails with that error and every field before it resolves.
   */
  lemma {:induction false} FromFieldsFirstError(reg: Registry, rank: map<string, nat>, fields: seq<Field>, bound: nat) returns (k: nat)
    requires Ranked(reg, rank) && FieldsBelow(reg, rank, fields, bound)
    requires FromFields(reg, rank, fields, bound).Err?
    ensures k < |fields| && FieldShape(reg, rank, fields[k], bound).Err?
    ensures FromFields(reg, rank, fields, bound).error == FieldShape(reg, rank, fields[k], bound).error
    ensures forall k' | 0 <= k' < k :: FieldShape(reg, rank, fields[k'], bound).Ok?
  {
    var n := |fields| - 1;
    var init := fields[..n];
    assert forall j | 0 <= j < n :: init[j] == fields[j];
    if FromFields(reg, rank, init, bound).Err? {
      k := FromFieldsFirstError(reg, rank, init, bound);
    } else {
      FromFieldsOk(reg, rank, init, bound);
      k := n;
    }
  }

  /** The value under each name is the shape of the last field of that name. */
  lemma {:induction false} FromFieldsLastWins(reg: Registry, rank: map<string, nat>, fields: seq<Field>, bound: nat, k: nat)
    requires Ranked(reg, rank) && FieldsBelow(reg, rank, fields, bound)
    requires k < |fields| && forall k' | k < k' < |fields| :: fields[k'].name != fields[k].name
    requires FromFields(reg, rank, fields, bound).Ok?
    ensures FieldShape(reg, rank, fields[k], bound).Ok?
    ensures fields[k].name in FromFields(reg, rank, fields, bound).value
    ensures FromFields(reg, rank, fields, bound).value[fields[k].name] == FieldShape(reg, rank, fields[k], bound).value
  {
    var n := |fields| - 1;
    var init := fields[..n];
    if k < n {
      assert forall j | 0 <= j < |init| :: init[j] == fields[j];
      FromFieldsLastWins(reg, rank, init, bound, k);
    }
  }

  /**
   * A field's shape: an array field is a one-element list of its element's shape, a map
   * field is an object with the single key "string" (its key type must resolve, whatever it
   * is), any other field is its type's shape.
   */
  lemma FieldShapeForms(reg: Registry, rank: map<string, nat>, f: Field, bound: nat)
    requires Ranked(reg, rank) && FieldBelow(reg, rank, f, bound)
    ensures var r := FieldShape(reg, rank, f, bound);
      var v := ShapeOf(reg, rank, f.fullType);
      && (v.Err? ==> r == Err(v.error))
      && (v.Ok? && f.isArray ==> r == Ok(JList([v.value])))
      && (v.Ok? && !f.isArray && f.isMap ==>
            r == if ShapeOf(reg, rank, f.keyFullType).Ok? then Ok(JObj(map["string" := v.value])) else Err(MapKeyNotScalar(f.keyFullType)))
      && (v.Ok? && !f.isArray && !f.isMap ==> r == v)
  {
  }

  // The resolver as the code runs it

  /** `fromObjectName`: looks the name up and resolves the entry found. */
  method FromObjectName(reg: Registry, ghost rank: map<string, nat>, name: string) returns (r: Result<Json, ShapeError>)
    requires Ranked(reg, rank)
    ensures r == ShapeOf(reg, rank, name)
    decreases RankOf(reg, rank, name), 1, 0
  {
    if name !in reg {
      return Err(UnknownObject(name));
    }
    match reg[name]
    case WellKnown(shape) => r := Ok(shape);
    case EnumEntry => r := Ok(FromEnum());
    case ScalarEntry(protoType) => r := FromScalarValue(protoType);
    case MessageEntry(fields) =>
      var o := FromMessage(reg, rank, fields, rank[name]);
      if o.Err? {
        return Err(o.error);
      }
      r := Ok(JObj(o.value));
  }

  /** `fromMessage`: the loop over the fields, giving up at the first field that fails. */
  method FromMessage(reg: Registry, ghost rank: map<string, nat>, fields: seq<Field>, ghost bound: nat)
    returns (r: Result<map<string, Json>, ShapeError>)
    requires Ranked(reg, rank) && FieldsBelow(reg, rank, fields, bound)
    ensures r == FromFields(reg, rank, fields, bound)
    decreases bound + 1, 0, 0
  {
    var res: map<string, Json> := map[];
    for n := 0 to |fields|
      invariant FromFields(reg, rank, fields[..n], bound) == Ok(res)
    {
      var f := fields[n];
      assert fields[..n + 1][..n] == fields[..n];
      var v := FromObjectName(reg, rank, f.fullType);
      if v.Err? {
        FromFieldsPrefixError(reg, rank, fields, bound, n + 1);
        return Err(v.error);
      }
      if f.isArray {
        res := res[f.name := JList([v.value])];
      } else if f.isMap {
        var key := FromObjectName(reg, rank, f.keyFullType);
        if key.Err? {
          FromFieldsPrefixError(reg, rank, fields, bound, n + 1);
          return Err(MapKeyNotScalar(f.keyFullType));
        }
        res := res[f.name := JObj(map["string" := v.value])];
      } else {
        res := res[f.name := v.value];
      }
    }
    assert fields[..|fields|] == fields;
    r := Ok(res);
  }

  /** Once a prefix of the fields fails, the whole message fails the same way. */
  lemma {:induction false} FromFieldsPrefixError(reg: Registry, rank: map<string, nat>, fields: seq<Field>, bound: nat, n: nat)
    requires Ranked(reg, rank) && FieldsBelow(reg, rank, fields, bound) && n <= |fields|
    requires FromFields(reg, rank, fields[..n], bound).Err?
    ensures FromFields(reg, rank, fields, bound) == FromFields(reg, rank, fields[..n], bound)
    decreases |fields| - n
  {
    if n < |fields| {
      var m := |fields| - 1;
      assert fields[..m][..n] == fields[..n];
      FromFieldsPrefixError(reg, rank, fields[..m], bound, n);
    } else {
      assert fields[..n] == fields;
    }
  }

  /** Lookup outcomes: an unregistered name fails, an enum is "int64", a message is its fields' object. */
  lemma ShapeOfEntries(reg: Registry, rank: map<string, nat>, name: string)
    requires Ranked(reg, rank)
    ensures name !in reg ==> ShapeOf(reg, rank, name) == Err(UnknownObject(name))
    ensures name in reg && reg[name] == EnumEntry ==> ShapeOf(reg, rank, name) == Ok(JStr("int64"))
    ensures name in reg && reg[name].WellKnown? ==> ShapeOf(reg, rank, name) == Ok(reg[name].shape)
    ensures name in reg && reg[name].MessageEntry? ==>
      var o := MessageShape(reg, rank, reg[name].fields);
      ShapeOf(reg, rank, name) == if o.Ok? then Ok(JObj(o.value)) else Err(o.error)
  {
    if name in reg && reg[name].MessageEntry? {
      FromFieldsBoundFree(reg, rank, reg[name].fields, rank[name], FieldsBound(reg, rank, reg[name].fields));
    }
  }

  /** Duration and Timestamp resolve to {seconds: "int64", nanos: "int32"} unless redeclared. */
  lemma WellKnownTimes(files: seq<File>, scalars: seq<ScalarValue>, rank: map<string, nat>, name: string)
    requires name == "google.protobuf.Duration" || name == "google.protobuf.Timestamp"
    requires !Declared(files, name) && forall k | 0 <= k < |scalars| :: scalars[k].protoType != name
    requires Ranked(RegistryOf(files, scalars), rank)
    ensures ShapeOf(RegistryOf(files, scalars), rank, name) == Ok(JObj(map["seconds" := JStr("int64"), "nanos" := JStr("int32")]))
  {
    RegistryNames(files, scalars, name);
  }

  // Writing the shapes back

  /** One message after `buildMessagesJsonString`: its shape when it resolves, else untouched. */
  function ShapeMessage(reg: Registry, ghost rank: map<string, nat>, m: Message): (r: Message)
    requires Ranked(reg, rank)
    ensures r == m.(jsonObject := r.jsonObject)
    ensures MessageShape(reg, rank, m.fields).Ok? ==>
      r.jsonObject == Some(MessageShape(reg, rank, m.fields).value) && r.jsonObject.value.Keys == FieldNames(m.fields)
    ensures MessageShape(reg, rank, m.fields).Err? ==> r == m
  {
    match MessageShape(reg, rank, m.fields)
    case Ok(o) =>
      FromFieldsKeys(reg, rank, m.fields, FieldsBound(reg, rank, m.fields));
      m.(jsonObject := Some(o))
    case Err(_) => m
  }

  function ShapeFile(reg: Registry, ghost rank: map<string, nat>, file: File): (r: File)
    requires Ranked(reg, rank)
    ensures r == file.(messages := r.messages) && |r.messages| == |file.messages|
    ensures forall j | 0 <= j < |file.messages| :: r.messages[j] == ShapeMessage(reg, rank, file.messages[j])
  {
    file.(messages := seq(|file.messages|, j requires 0 <= j < |file.messages| => ShapeMessage(reg, rank, file.messages[j])))
  }

  /** Links the file's enums and messages to it, as the registration loop does. */
  function RelinkFile(file: File): (r: File)
    ensures r == file.(enums := r.enums, messages := r.messages)
    ensures |r.enums| == |file.enums| && forall k | 0 <= k < |file.enums| :: r.enums[k] == file.enums[k].(owner := Some(file.dir))
    ensures |r.messages| == |file.messages| && forall k | 0 <= k < |file.messages| :: r.messages[k] == file.messages[k].(owner := Some(file.dir))
  {
    file.(enums := seq(|file.enums|, k requires 0 <= k < |file.enums| => file.enums[k].(owner := Some(file.dir))),
          messages := seq(|file.messages|, k requires 0 <= k < |file.messages| => file.messages[k].(owner := Some(file.dir))))
  }

  /** Relinking changes no registration: names, kinds and fields are untouched. */
  lemma {:induction false} RelinkKeepsDecls(files: seq<File>, relinked: seq<File>)
    requires |relinked| == |files| && forall i | 0 <= i < |files| :: relinked[i] == RelinkFile(files[i])
    ensures FileDecls(relinked) == FileDecls(files)
  {
    if |files| > 0 {
      var n := |files| - 1;
      RelinkKeepsDecls(files[..n], relinked[..n]);
      assert EnumDecls(relinked[n].enums) == EnumDecls(files[n].enums);
      assert MessageDecls(relinked[n].messages) == MessageDecls(files[n].messages);
      assert OneFileDecls(relinked[n]) == OneFileDecls(files[n]);
    }
  }

  // Depth truncation

  /**
   * The tree `deepJSONObject` returns: at depth 0 a list or object is emptied, a string kept;
   * above 0 each element or value is truncated one level lower. A negative depth never
   * reaches 0.
   */
  function Truncated(obj: Json, deep: int): Json {
    if deep == 0 then
      match obj
      case JList(_) => JList([])
      case JObj(_) => JObj(map[])
      case JStr(_) => obj
    else
      match obj
      case JStr(_) => obj
      case JList(items) => JList(seq(|items|, i requires 0 <= i < |items| => Truncated(items[i], deep - 1)))
      case JObj(fields) => JObj(map k | k in fields :: Truncated(fields[k], deep - 1))
  }

  /** Truncation keeps the outer shape: strings at any depth, list lengths and key sets above depth 0. */
  lemma DeepKeepsOuterShape(obj: Json, deep: int)
    ensures obj.JStr? ==> Truncated(obj, deep) == obj
    ensures deep == 0 && obj.JList? ==> Truncated(obj, deep) == JList([])
    ensures deep == 0 && obj.JObj? ==> Truncated(obj, deep) == JObj(map[])
    ensures deep != 0 && obj.JList? ==> Truncated(obj, deep).JList? && |Truncated(obj, deep).items| == |obj.items|
    ensures deep != 0 && obj.JObj? ==> Truncated(obj, deep).JObj? && Truncated(obj, deep).fields.Keys == obj.fields.Keys
  {
  }

  /** A negative depth never truncates: the tree comes back whole. */
  lemma {:induction false} DeepNegativeIsIdentity(obj: Json, deep: int)
    requires deep < 0
    ensures Truncated(obj, deep) == obj
  {
    match obj
    case JStr(_) =>
    case JList(items) =>
      forall i | 0 <= i < |items| ensures Truncated(items[i], deep - 1) == items[i] {
        DeepNegativeIsIdentity(items[i], deep - 1);
      }
      assert seq(|items|, i requires 0 <= i < |items| => Truncated(items[i], deep - 1)) == items;
    case JObj(fields) =>
      forall k | k in fields ensures Truncated(fields[k], deep - 1) == fields[k] {
        DeepNegativeIsIdentity(fields[k], deep - 1);
      }
      assert (map k | k in fields :: Truncated(fields[k], deep - 1)) == fields;
  }

  /** Truncating twice to the same depth is truncating once. */
  lemma {:induction false} DeepIdempotent(obj: Json, deep: int)
    ensures Truncated(Truncated(obj, deep), deep) == Truncated(obj, deep)
  {
    if deep != 0 {
      match obj
      case JStr(_) =>
      case JList(items) =>
        var once := seq(|items|, i requires 0 <= i < |items| => Truncated(items[i], deep - 1));
        forall i | 0 <= i < |items|
          ensures Truncated(once[i], deep - 1) == once[i]
        {
          DeepIdempotent(items[i], deep - 1);
        }
        assert seq(|once|, i requires 0 <= i < |once| => Truncated(once[i], deep - 1)) == once;
      case JObj(fields) =>
        var once := map k | k in fields :: Truncated(fields[k], deep - 1);
        forall k | k in once
          ensures Truncated(once[k], deep - 1) == once[k]
        {
          DeepIdempotent(fields[k], deep - 1);
        }
        assert (map k | k in once :: Truncated(once[k], deep - 1)) == once;
    }
  }

  /** `deepJSONObject`: copies the tree, truncated at `deep`, element by element. */
  method DeepJSONObject(obj: Json, deep: int) returns (r: Json)
    ensures r == Truncated(obj, deep)
    decreases obj
  {
    if deep == 0 {
      r := match obj
        case JList(_) => JList([])
        case JObj(_) => JObj(map[])
        case JStr(_) => obj;
      return;
    }
    match obj
    case JStr(_) => r := obj;
    case JList(items) =>
      var res: seq<Json> := [];
      for n := 0 to |items|
        invariant res == seq(n, i requires 0 <= i < n => Truncated(items[i], deep - 1))
      {
        var v := DeepJSONObject(items[n], deep - 1);
        res := res + [v];
      }
      assert res == seq(|items|, i requires 0 <= i < |items| => Truncated(items[i], deep - 1));
      r := JList(res);
      assert r == Truncated(obj, deep);
    case JObj(fields) =>
      var res: map<string, Json> := map[];
      var pending := fields.Keys;
      while pending != {}
        invariant pending <= fields.Keys
        invariant res == map k | k in fields.Keys - pending :: Truncated(fields[k], deep - 1)
        decreases pending
      {
        var k :| k in pending;
        var v := DeepJSONObject(fields[k], deep - 1);
        res := res[k := v];
        pending := pending - {k};
      }
      assert fields.Keys - pending == fields.Keys;
      r := JObj(res);
      assert r == Truncated(obj, deep);
  }
}
