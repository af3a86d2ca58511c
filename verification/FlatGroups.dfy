/** The position-scanning repeating-group validator over a flat field list
    (`validate_group` in `truefix-dict/src/validate.rs`). */
module FlatGroups {
  import opened Decimal
  import opened FieldMaps
  import opened Dictionary

  /** The definition a group field's value is checked against: the group's child dictionary first, then
      the enclosing one. */
  function LookupInGroup(d: Dict, g: GroupDef, tag: Tag): (r: Option<FieldDef>) {
    if g.child.Some? && tag in g.child.value.fields then Some(g.child.value.fields[tag])
    else if tag in d.fields then Some(d.fields[tag])
    else None
  }

  /** Type and enumeration check of one field of a group entry; `None` is acceptance. */
  function CheckGroupFieldValue(d: Dict, v: Formats, o: Options, g: GroupDef, f: Field): (r: Option<Rejection>) {
    if o.validateFieldsHaveValues && f.value == [] then Some(Session(TagSpecifiedWithoutValue, f.tag))
    else if !o.checkFieldTypes then None
    else match LookupInGroup(d, g, f.tag)
      case None => None
      case Some(def) =>
        if !v.wellFormed(def, f.value) then Some(Session(IncorrectDataFormat, f.tag))
        else if !v.allowed(def, f.value) then Some(Session(ValueIsIncorrect, f.tag))
        else None
  }

  function Index(members: seq<Tag>, tag: Tag): (i: nat)
    requires tag in members
    ensures i < |members| && members[i] == tag && tag !in members[..i]
  {
    if members[0] == tag then 0
    else
      var i := Index(members[1..], tag);
      assert members[..i + 1] == [members[0]] + members[1..][..i];
      i + 1
  }

  /** The first required tag not among those seen. */
  function FirstMissing(required: seq<Tag>, seen: seq<Tag>): (r: Option<Tag>)
    ensures r.None? <==> forall t :: t in required ==> t in seen
  {
    if required == [] then None
    else if required[0] !in seen then Some(required[0])
    else FirstMissing(required[1..], seen)
  }

  /** The end of the group counted by `tag` whose count field stands at `pos`. */
  function ScanGroup(d: Dict, v: Formats, o: Options, body: seq<Field>, pos: nat, tag: Tag): (r: Result<nat>)
    requires pos <= |body|
    ensures r.Ok? ==> pos < r.value && (pos < |body| ==> r.value <= |body|)
    decreases |body| - pos, 0
  {
    if tag !in d.groups then Ok(pos + 1)
    else if pos == |body| then Err(Session(IncorrectDataFormat, tag))
    else match AsInt(body[pos])
      case None => Err(Session(IncorrectDataFormat, tag))
      case Some(declared) => ScanEntries(d, v, o, body, pos + 1, tag, declared, 0)
  }

  function ScanEntries(d: Dict, v: Formats, o: Options, body: seq<Field>, pos: nat, tag: Tag, declared: int, found: nat): (r: Result<nat>)
    requires pos <= |body| && tag in d.groups
    ensures r.Ok? ==> pos <= r.value <= |body|
    decreases |body| - pos, 2
  {
    var g := d.groups[tag];
    if pos == |body| || body[pos].tag != g.delimiter then
      if pos < |body| && o.firstFieldInGroupIsDelimiter && found < declared
         && (body[pos].tag in g.members || body[pos].tag in d.groups)
      then Err(Session(RepeatingGroupFieldsOutOfOrder, g.delimiter))
      else if declared != found then Err(Session(IncorrectNumInGroupCount, tag))
      else Ok(pos)
    else match ScanEntry(d, v, o, body, pos, g)
      case Err(e) => Err(e)
      case Ok(p) => ScanEntries(d, v, o, body, p, tag, declared, found + 1)
  }

  /** One entry, its delimiter at `pos`. */
  function ScanEntry(d: Dict, v: Formats, o: Options, body: seq<Field>, pos: nat, g: GroupDef): (r: Result<nat>)
    requires pos < |body|
    ensures r.Ok? ==> pos < r.value <= |body|
    decreases |body| - pos, 1
  {
    match EntryFieldValue(d, v, o, g, body[pos])
    case Some(e) => Err(e)
    case None =>
      match ScanMembers(d, v, o, body, pos + 1, g, 0, [g.delimiter])
      case Err(e) => Err(e)
      case Ok((p, seen)) =>
        if o.checkRequiredFields && FirstMissing(g.required, seen).Some?
        then Err(Session(RequiredTagMissing, FirstMissing(g.required, seen).value))
        else Ok(p)
  }

  function EntryFieldValue(d: Dict, v: Formats, o: Options, g: GroupDef, f: Field): (r: Option<Rejection>) {
    if o.checkFieldTypes || o.validateFieldsHaveValues then CheckGroupFieldValue(d, v, o, g, f) else None
  }

  /** The members of an entry after its delimiter: where they end, and the tags seen. */
  function ScanMembers(d: Dict, v: Formats, o: Options, body: seq<Field>, pos: nat, g: GroupDef, lastIdx: nat, seen: seq<Tag>):
    (r: Result<(nat, seq<Tag>)>)
    requires pos <= |body|
    ensures r.Ok? ==> pos <= r.value.0 <= |body|
    decreases |body| - pos, 2
  {
    if pos == |body| || body[pos].tag == g.delimiter || body[pos].tag !in g.members then Ok((pos, seen))
    else
      var t := body[pos].tag;
      var idx := Index(g.members, t);
      if o.validateUnorderedGroupFields && idx < lastIdx then Err(Session(RepeatingGroupFieldsOutOfOrder, t))
      else match ScanMember(d, v, o, body, pos, g)
        case Err(e) => Err(e)
        case Ok(p) => ScanMembers(d, v, o, body, p, g, idx, seen + [t])
  }

  /** One member: a nested group, or a plain field. */
  function ScanMember(d: Dict, v: Formats, o: Options, body: seq<Field>, pos: nat, g: GroupDef): (r: Result<nat>)
    requires pos < |body|
    ensures r.Ok? ==> pos < r.value <= |body|
    decreases |body| - pos, 1
  {
    var t := body[pos].tag;
    if t in d.groups then ScanGroup(d, v, o, body, pos, t)
    else match EntryFieldValue(d, v, o, g, body[pos])
      case Some(e) => Err(e)
      case None => Ok(pos + 1)
  }

  /** Every group of a flat section, from left to right. */
  function ScanSection(d: Dict, v: Formats, o: Options, fields: seq<Field>, pos: nat): (r: Result<()>)
    requires pos <= |fields|
    decreases |fields| - pos
  {
    if pos == |fields| then Ok(())
    else if fields[pos].tag in d.groups then
      match ScanGroup(d, v, o, fields, pos, fields[pos].tag)
      case Err(e) => Err(e)
      case Ok(p) => ScanSection(d, v, o, fields, p)
    else ScanSection(d, v, o, fields, pos + 1)
  }

  method ValidateGroup(d: Dict, v: Formats, o: Options, body: seq<Field>, start: nat, tag: Tag) returns (r: Result<nat>)
    requires start <= |body|
    ensures r == ScanGroup(d, v, o, body, start, tag)
    decreases |body| - start, 0
  {
    if tag !in d.groups {
      return Ok(start + 1);
    }
    if start == |body| {
      return Err(Session(IncorrectDataFormat, tag));
    }
    var count := AsInt(body[start]);
    if count.None? {
      return Err(Session(IncorrectDataFormat, tag));
    }
    var g, declared := d.groups[tag], count.value;
    var pos, found := start + 1, 0;
    while pos < |body|
      invariant start < pos <= |body|
      invariant ScanGroup(d, v, o, body, start, tag) == ScanEntries(d, v, o, body, pos, tag, declared, found)
    {
      var t := body[pos].tag;
      if t != g.delimiter {
        if o.firstFieldInGroupIsDelimiter && found < declared && (t in g.members || t in d.groups) {
          return Err(Session(RepeatingGroupFieldsOutOfOrder, g.delimiter));
        }
        break;
      }
      var entry := ValidateEntry(d, v, o, body, pos, g);
      match entry {
        case Err(e) => return Err(e);
        case Ok(p) => pos, found := p, found + 1;
      }
    }
    if declared != found {
      return Err(Session(IncorrectNumInGroupCount, tag));
    }
    r := Ok(pos);
  }

  /** One turn of `validate_group`'s outer loop, from a delimiter to the end of its entry. */
  method ValidateEntry(d: Dict, v: Formats, o: Options, body: seq<Field>, start: nat, g: GroupDef) returns (r: Result<nat>)
    requires start < |body|
    ensures r == ScanEntry(d, v, o, body, start, g)
    decreases |body| - start, 1
  {
    if o.checkFieldTypes || o.validateFieldsHaveValues {
      var bad := CheckGroupFieldValue(d, v, o, g, body[start]);
      if bad.Some? {
        return Err(bad.value);
      }
    }
    var pos, lastIdx, seen := start + 1, 0, [g.delimiter];
    while pos < |body| && body[pos].tag != g.delimiter && body[pos].tag in g.members
      invariant start < pos <= |body|
      invariant ScanMembers(d, v, o, body, start + 1, g, 0, [g.delimiter]) == ScanMembers(d, v, o, body, pos, g, lastIdx, seen)
    {
      var t := body[pos].tag;
      var idx := Index(g.members, t);
      if o.validateUnorderedGroupFields && idx < lastIdx {
        return Err(Session(RepeatingGroupFieldsOutOfOrder, t));
      }
      if t in d.groups {
        var nested := ValidateGroup(d, v, o, body, pos, t);
        match nested {
          case Err(e) => return Err(e);
          case Ok(p) => pos := p;
        }
      } else {
        if o.checkFieldTypes || o.validateFieldsHaveValues {
          var bad := CheckGroupFieldValue(d, v, o, g, body[pos]);
          if bad.Some? {
            return Err(bad.value);
          }
        }
        pos := pos + 1;
      }
      lastIdx, seen := idx, seen + [t];
    }
    if o.checkRequiredFields {
      var missing := FirstMissing(g.required, seen);
      if missing.Some? {
        return Err(Session(RequiredTagMissing, missing.value));
      }
    }
    r := Ok(pos);
  }
}
