/** The normalized data dictionary and the validation vocabulary (`truefix-dict/src/model.rs`). */
module Dictionary {
  import opened Decimal
  import opened FieldMaps

  datatype FieldDef = FieldDef(
    tag: Tag,
    name: string,
    fieldType: string,
    values: seq<string>,
    openEnum: bool,
    labels: map<string, string>)

  datatype MessageDef = MessageDef(
    msgType: string,
    name: string,
    required: seq<Tag>,
    optional: seq<Tag>,
    memberTags: set<Tag>,
    fieldOrder: Option<seq<Tag>>)

  datatype GroupDef = GroupDef(
    delimiter: Tag,
    members: seq<Tag>,
    required: seq<Tag>,
    child: Option<Dict>)

  datatype Version = Version(major: nat, minor: nat, servicePack: Option<nat>, extensionPack: Option<nat>)

  datatype Dict = Dict(
    version: string,
    fields: map<Tag, FieldDef>,
    fieldByName: map<string, Tag>,
    messages: map<string, MessageDef>,
    header: set<Tag>,
    trailer: set<Tag>,
    groups: map<Tag, GroupDef>,
    components: map<string, seq<Tag>>)

  datatype Options = Options(
    validateFieldsHaveValues: bool,
    validateUserDefinedFields: bool,
    allowUnknownMsgFields: bool,
    checkRequiredFields: bool,
    checkFieldTypes: bool,
    checkGroups: bool,
    firstFieldInGroupIsDelimiter: bool,
    validateUnorderedGroupFields: bool,
    checkRepeatedTags: bool,
    validateFieldsOutOfOrder: bool,
    validateChecksum: bool,
    validateIncomingMessage: bool,
    allowPosDup: bool,
    requiresOrigSendingTime: bool,
    checkRequiredEnvelopeFields: bool)

  datatype RejectReason =
    | InvalidTagNumber
    | RequiredTagMissing
    | TagNotDefinedForMessageType
    | TagSpecifiedWithoutValue
    | ValueIsIncorrect
    | IncorrectDataFormat
    | InvalidMsgType
    | TagAppearsMoreThanOnce
    | TagOutOfRequiredOrder
    | RepeatingGroupFieldsOutOfOrder
    | IncorrectNumInGroupCount

  datatype Rejection = Rejection(reason: RejectReason, refTag: Option<Tag>, business: bool)

  datatype Result<+T> = Ok(value: T) | Err(error: Rejection)

  function Session(reason: RejectReason, tag: Tag): (r: Rejection) {
    Rejection(reason, Some(tag), false)
  }

  /** Readings of raw values that rest on foreign libraries (dates, decimals, text): whether a value is well
      formed for a field, whether it is among the field's enumerated values, the text it spells, and the
      version it names. */
  datatype Formats = Formats(
    wellFormed: (FieldDef, seq<Byte>) -> bool,
    allowed: (FieldDef, seq<Byte>) -> bool,
    text: seq<Byte> -> Option<string>,
    version: seq<Byte> -> Option<Version>)
}
