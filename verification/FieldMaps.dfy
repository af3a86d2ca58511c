/** Messages as ordered trees of fields and repeating groups (`truefix-core/src/field_map.rs`). */
module FieldMaps {
  import opened Decimal

  type Tag = nat

  datatype Field = Field(tag: Tag, value: seq<Byte>)

  datatype Member =
    | FieldMember(field: Field)
    | GroupMember(countTag: Tag, entries: seq<FieldMap>, declared: Option<int>)

  datatype FieldMap = FieldMap(members: seq<Member>)

  datatype Message = Message(header: FieldMap, body: FieldMap, trailer: FieldMap, outOfOrder: bool)

  function AsInt(f: Field): (r: Option<int>) {
    ParseI64(f.value)
  }

  function TagOf(m: Member): (t: Tag) {
    match m
    case FieldMember(f) => f.tag
    case GroupMember(ct, _, _) => ct
  }

  /** The top-level plain fields, in order. */
  function PlainFields(ms: seq<Member>): (fs: seq<Field>) {
    if ms == [] then []
    else (if ms[0].FieldMember? then [ms[0].field] else []) + PlainFields(ms[1..])
  }

  /** The first plain field with `tag`. */
  function GetField(ms: seq<Member>, tag: Tag): (r: Option<Field>) {
    if ms == [] then None
    else if ms[0].FieldMember? && ms[0].field.tag == tag then Some(ms[0].field)
    else GetField(ms[1..], tag)
  }

  /** The entries of the first group counted by `tag`. */
  function GetGroup(ms: seq<Member>, tag: Tag): (r: Option<seq<FieldMap>>) {
    if ms == [] then None
    else if ms[0].GroupMember? && ms[0].countTag == tag then Some(ms[0].entries)
    else GetGroup(ms[1..], tag)
  }

  /** The count a group is written with: the one read off the wire if any, else the number of entries. */
  function CountToEmit(entries: seq<FieldMap>, declared: Option<int>): (n: int) {
    match declared case Some(n) => n case None => |entries|
  }

  /** Writing a member back as wire-order fields. */
  function FlattenMember(m: Member): (fs: seq<Field>)
    ensures |fs| > 0 && fs[0].tag == TagOf(m)
    decreases m
  {
    match m
    case FieldMember(f) => [f]
    case GroupMember(ct, entries, declared) =>
      [Field(ct, PrintInt(CountToEmit(entries, declared)))] + FlattenEntries(entries)
  }

  function FlattenEntries(entries: seq<FieldMap>): (fs: seq<Field>)
    decreases entries
  {
    if entries == [] then [] else FlattenMembers(entries[0].members) + FlattenEntries(entries[1..])
  }

  function FlattenMembers(ms: seq<Member>): (fs: seq<Field>)
    ensures ms != [] ==> |fs| > 0 && fs[0].tag == TagOf(ms[0])
    decreases ms
  {
    if ms == [] then [] else FlattenMember(ms[0]) + FlattenMembers(ms[1..])
  }
}
