/**
 * The entities of the descriptor documents (internal/build/template.go): files, enums,
 * messages and their fields, services and their methods, scalar type notes, and the
 * per-entity option maps. They are values here; the references from a child back to its
 * parent (Go's `File`/`Service` pointers) are kept as the parent's key: the owning file's
 * directory (directories are pairwise distinct) or the owning service's full name.
 */
module Model {
  import opened Wrappers

  /** One rule of a validation annotation; `value` is the rule's JSON value, kept as text. */
  datatype ValidatorRule = ValidatorRule(name: string, value: string)

  /** The decoded value of a "validate.rules" option. */
  datatype ValidatorExtension = ValidatorExtension(rules: seq<ValidatorRule>)

  /** Go's `Options` map; a nil map and an empty one read the same, so both are `map[]`. */
  type Options = map<string, ValidatorExtension>

  /** The JSON-like tree of an example shape: strings, lists and string-keyed objects. */
  datatype Json = JStr(s: string) | JList(items: seq<Json>) | JObj(fields: map<string, Json>)

  /** Which language type each protobuf scalar maps to. */
  datatype ScalarValue = ScalarValue(
    protoType: string,
    notes: string,
    cppType: string,
    csType: string,
    goType: string,
    javaType: string,
    phpType: string,
    pythonType: string,
    rubyType: string)

  datatype EnumValue = EnumValue(name: string, number: string, description: string, options: Options)

  datatype Enum = Enum(
    owner: Option<string>,
    name: string,
    longName: string,
    fullName: string,
    description: string,
    values: seq<EnumValue>,
    options: Options)

  datatype FileExtension = FileExtension(
    owner: Option<string>,
    name: string,
    longName: string,
    fullName: string,
    description: string,
    fieldLabel: string,
    typ: string,
    longType: string,
    fullType: string,
    number: int,
    defaultValue: string,
    containingType: string,
    containingLongType: string,
    containingFullType: string)

  datatype MessageExtension = MessageExtension(
    ext: FileExtension,
    scopeType: string,
    scopeLongType: string,
    scopeFullType: string)

  /**
   * A message field. `fieldLabel` is Go's `Label` (`label` is a Dafny keyword): "optional",
   * "required" or "repeated" as decoded, and "array" or "map" once a repeated field is
   * classified; `done` marks that.
   */
  datatype Field = Field(
    name: string,
    description: string,
    fieldLabel: string,
    typ: string,
    longType: string,
    fullType: string,
    isMap: bool,
    isOneof: bool,
    oneofDecl: string,
    defaultValue: string,
    options: Options,
    done: bool,
    isArray: bool,
    keyType: string,
    keyLongType: string,
    keyFullType: string)

  /** A message; `jsonObject` is its example shape once resolved (`None` is Go's nil map). */
  datatype Message = Message(
    owner: Option<string>,
    name: string,
    longName: string,
    fullName: string,
    description: string,
    hasExtensions: bool,
    hasFields: bool,
    hasOneofs: bool,
    extensions: seq<MessageExtension>,
    fields: seq<Field>,
    options: Options,
    isMapEntry: bool,
    jsonObject: Option<map<string, Json>>)

  /** A service method; `service` is the full name of the service it belongs to. */
  datatype Method = Method(
    service: Option<string>,
    name: string,
    description: string,
    requestType: string,
    requestLongType: string,
    requestFullType: string,
    requestStreaming: bool,
    responseType: string,
    responseLongType: string,
    responseFullType: string,
    responseStreaming: bool,
    options: Options)

  datatype Service = Service(
    owner: Option<string>,
    name: string,
    longName: string,
    fullName: string,
    description: string,
    methods: seq<Method>,
    options: Options)

  /** A unified file: everything declared in one directory. */
  datatype File = File(
    dir: string,
    name: string,
    description: string,
    package: string,
    hasEnums: bool,
    hasExtensions: bool,
    hasMessages: bool,
    hasServices: bool,
    enums: seq<Enum>,
    extensions: seq<FileExtension>,
    messages: seq<Message>,
    services: seq<Service>,
    options: Options)

  /** One decoded document: its files and its table of scalar types. */
  datatype Fragment = Fragment(files: seq<File>, scalars: seq<ScalarValue>)

  /** The named option, or `None` (Go's nil) when it is not set; one accessor for every entity. */
  function OptionNamed(options: Options, name: string): (r: Option<ValidatorExtension>)
    ensures r.Some? <==> name in options
    ensures r.Some? ==> r.value == options[name]
  {
    if name in options then Some(options[name]) else None
  }

  // Sort and option keys of the entities, as first-class functions.

  function EnumName(e: Enum): string { e.name }
  function MessageName(m: Message): string { m.name }
  function ServiceName(s: Service): string { s.name }
  function ServiceFullName(s: Service): string { s.fullName }
  function MethodName(m: Method): string { m.name }
  function FilePackage(f: File): string { f.package }
  function FieldOptionsOf(f: Field): Options { f.options }
  function ValueOptionsOf(v: EnumValue): Options { v.options }
  function MethodOptionsOf(m: Method): Options { m.options }
}
