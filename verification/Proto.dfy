/** Descriptors, messages as finite trees, and statuses. */
module Proto {
  import opened Wrappers

  datatype FieldType =
    | TypeDouble | TypeFloat | TypeInt64 | TypeUInt64 | TypeInt32 | TypeFixed64 | TypeFixed32
    | TypeBool | TypeString | TypeGroup | TypeMessage | TypeBytes | TypeUInt32 | TypeEnum
    | TypeSFixed32 | TypeSFixed64 | TypeSInt32 | TypeSInt64

  /** The parts of the field extension that the traversal looks at. */
  datatype FieldOptions = FieldOptions(
    ignoreAlways: bool, itemsIgnoreAlways: bool, valuesIgnoreAlways: bool)

  datatype Shape = Single | Repeated | MapOf(key: FieldDescriptor, value: FieldDescriptor)

  datatype FieldDescriptor = FieldDescriptor(
    number: nat, name: string, fullName: string, fieldType: FieldType, shape: Shape,
    isExtension: bool, hasPresence: bool, options: Option<FieldOptions>,
    messageType: string, enumValues: set<int>, defaultValue: Value)
  {
    /** cpp_type() == CPPTYPE_MESSAGE */
    predicate IsMessage() { fieldType == TypeMessage || fieldType == TypeGroup }
  }

  datatype Descriptor = Descriptor(fullName: string, fields: seq<FieldDescriptor>)

  datatype Value =
    | BoolValue(b: bool)
    | IntValue(i: int)
    | UIntValue(u: nat)
    | DoubleValue(d: real)
    | StringValue(s: string)
    | BytesValue(bytes: seq<nat>)
    | MessageValue(m: Message)

  /** A map entry. `found` is what looking its key up in the map gives: its own value unless
      the key occurs more than once. */
  datatype Entry = Entry(key: Value, value: Value, found: Value)

  datatype Content = One(value: Value) | Many(items: seq<Value>) | Entries(entries: seq<Entry>)

  datatype Field = Field(descriptor: FieldDescriptor, content: Content)

  /** A message: its descriptor and its set fields in the order reflection lists them. */
  datatype Message = Message(desc: Descriptor, fields: seq<Field>) {
    function Find(f: FieldDescriptor): Option<Content>
    {
      FindIn(fields, f)
    }
  }

  function FindIn(fs: seq<Field>, f: FieldDescriptor): Option<Content>
  {
    if fs == [] then None
    else if fs[0].descriptor == f then Some(fs[0].content)
    else FindIn(fs[1..], f)
  }

  function HasField(m: Message, f: FieldDescriptor): bool { m.Find(f).Some? }

  function ItemsOf(m: Message, f: FieldDescriptor): seq<Value>
  {
    match m.Find(f) case Some(Many(items)) => items case _ => []
  }

  function EntriesOf(m: Message, f: FieldDescriptor): seq<Entry>
  {
    match m.Find(f) case Some(Entries(es)) => es case _ => []
  }

  function SingleOf(m: Message, f: FieldDescriptor): Value
  {
    match m.Find(f) case Some(One(v)) => v case _ => f.defaultValue
  }

  function FindByName(fs: seq<FieldDescriptor>, name: string): Option<FieldDescriptor>
  {
    if fs == [] then None else if fs[0].name == name then Some(fs[0]) else FindByName(fs[1..], name)
  }

  /** A field of a message, or one of its items: what a violation points at. */
  datatype ProtoField = ProtoField(message: Message, field: FieldDescriptor, index: int)

  /** Codes of the project's own statuses; those of the libraries it calls are foreign. */
  datatype Code = NotFound | BuildFailed | InvalidArgument | Internal | Foreign(number: nat)

  datatype Status = Ok | Error(code: Code, message: string)

  /** A library call that failed. */
  datatype Failure = Failure(number: nat, reason: string) {
    function AsStatus(): Status { Error(Foreign(number), reason) }
  }
}
