/** The repeating-group validator over structured messages, and the message-level group check that runs
    both validators (`validate_structured_group` and `validate_groups` in `truefix-dict/src/validate.rs`). */
module StructuredGroups {
  import opened Decimal
  import opened FieldMaps
  import opened Dictionary
  import opened FlatGroups

  /** A plain field's presence, or for a count tag the presence of a nested group with entries. */
  predicate PresentInEntry(d: Dict, ms: seq<Member>, tag: Tag) {
    if tag in d.groups then GetGroup(ms, tag).Some? && GetGroup(ms, tag).value != []
    else GetField(ms, tag).Some?
  }

  function FirstAbsent(d: Dict, required: seq<Tag>, ms: seq<Member>): (r: Option<Tag>)
    ensures r.None? <==> forall t :: t in required ==> PresentInEntry(d, ms, t)
  {
    if required == [] then None
    else if !PresentInEntry(d, ms, required[0]) then Some(required[0])
    else FirstAbsent(d, required[1..], ms)
  }

  /** The tag of the member after the first, or else of whatever follows the whole list. */
  function Following(ms: seq<Member>, next: Option<Tag>): (t: Option<Tag>) {
    if |ms| > 1 then Some(TagOf(ms[1])) else next
  }

  /** `None` is acceptance. `next` is the tag of the member that follows the group. */
  function CheckGroup(d: Dict, v: Formats, o: Options, entries: seq<FieldMap>, declared: Option<int>, next: Option<Tag>, tag: Tag):
    (r: Option<Rejection>)
    decreases entries, 1
  {
    if tag !in d.groups then None
    else
      var g := d.groups[tag];
      if declared.Some? && declared.value != |entries| then
        // a negative count, cast to `usize`, exceeds every length
        if !(0 <= declared.value <= |entries|) && next.Some?
           && o.firstFieldInGroupIsDelimiter && next.value in g.members
        then Some(Session(RepeatingGroupFieldsOutOfOrder, g.delimiter))
        else Some(Session(IncorrectNumInGroupCount, tag))
      else CheckEntries(d, v, o, g, entries, next)
  }

  function CheckEntries(d: Dict, v: Formats, o: Options, g: GroupDef, entries: seq<FieldMap>, next: Option<Tag>): (r: Option<Rejection>)
    decreases entries, 0
  {
    if entries == [] then None
    else match CheckEntry(d, v, o, g, entries[0], next)
      case Some(e) => Some(e)
      case None => CheckEntries(d, v, o, g, entries[1..], next)
  }

  function CheckEntry(d: Dict, v: Formats, o: Options, g: GroupDef, entry: FieldMap, next: Option<Tag>): (r: Option<Rejection>)
    decreases entry, 0
  {
    match CheckMembers(d, v, o, g, entry.members, 0, next)
    case Some(e) => Some(e)
    case None =>
      if o.checkRequiredFields && FirstAbsent(d, g.required, entry.members).Some?
      then Some(Session(RequiredTagMissing, FirstAbsent(d, g.required, entry.members).value))
      else None
  }

  function CheckMembers(d: Dict, v: Formats, o: Options, g: GroupDef, ms: seq<Member>, lastIdx: nat, next: Option<Tag>): (r: Option<Rejection>)
    decreases ms, 0
  {
    if ms == [] then None
    else if TagOf(ms[0]) !in g.members then CheckMembers(d, v, o, g, ms[1..], lastIdx, next)
    else
      var idx := Index(g.members, TagOf(ms[0]));
      if o.validateUnorderedGroupFields && idx < lastIdx then Some(Session(RepeatingGroupFieldsOutOfOrder, TagOf(ms[0])))
      else match CheckMember(d, v, o, g, ms[0], Following(ms, next))
        case Some(e) => Some(e)
        case None => CheckMembers(d, v, o, g, ms[1..], idx, next)
  }

  function CheckMember(d: Dict, v: Formats, o: Options, g: GroupDef, m: Member, next: Option<Tag>): (r: Option<Rejection>)
    decreases m, 0
  {
    match m
    case GroupMember(ct, entries, declared) => CheckGroup(d, v, o, entries, declared, next, ct)
    case FieldMember(f) => EntryFieldValue(d, v, o, g, f)
  }

  method ValidateStructuredGroup(
    d: Dict, v: Formats, o: Options, entries: seq<FieldMap>, declared: Option<int>, next: Option<Tag>, tag: Tag)
    returns (r: Option<Rejection>)
    ensures r == CheckGroup(d, v, o, entries, declared, next, tag)
    decreases entries, 1
  {
    if tag !in d.groups {
      return None;
    }
    var g := d.groups[tag];
    if declared.Some? && declared.value != |entries| {
      if !(0 <= declared.value <= |entries|) && next.Some? {
        if o.firstFieldInGroupIsDelimiter && next.value in g.members {
          return Some(Session(RepeatingGroupFieldsOutOfOrder, g.delimiter));
        }
      }
      return Some(Session(IncorrectNumInGroupCount, tag));
    }
    for i := 0 to |entries|
      invariant CheckEntries(d, v, o, g, entries, next) == CheckEntries(d, v, o, g, entries[i..], next)
    {
      assert entries[i..][0] == entries[i] && entries[i..][1..] == entries[i + 1..];
      var bad := ValidateStructuredEntry(d, v, o, g, entries[i], next);
      if bad.Some? {
        return bad;
      }
    }
    r := None;
  }

  /** One turn of `validate_structured_group`'s loop over entries. */
  method ValidateStructuredEntry(d: Dict, v: Formats, o: Options, g: GroupDef, entry: FieldMap, next: Option<Tag>)
    returns (r: Option<Rejection>)
    ensures r == CheckEntry(d, v, o, g, entry, next)
    decreases entry, 0
  {
    var ms, lastIdx := entry.members, 0;
    for i := 0 to |ms|
      invariant CheckMembers(d, v, o, g, ms, 0, next) == CheckMembers(d, v, o, g, ms[i..], lastIdx, next)
    {
      var t := TagOf(ms[i]);
      assert ms[i..][0] == ms[i] && ms[i..][1..] == ms[i + 1..];
      if t !in g.members {
        continue;
      }
      var idx := Index(g.members, t);
      if o.validateUnorderedGroupFields && idx < lastIdx {
        return Some(Session(RepeatingGroupFieldsOutOfOrder, t));
      }
      lastIdx := idx;
      var bad: Option<Rejection> := None;
      match ms[i] {
        case GroupMember(ct, nested, nestedDeclared) =>
          var after := if i + 1 < |ms| then Some(TagOf(ms[i + 1])) else next;
          bad := ValidateStructuredGroup(d, v, o, nested, nestedDeclared, after, ct);
        case FieldMember(f) =>
          if o.checkFieldTypes || o.validateFieldsHaveValues {
            bad := CheckGroupFieldValue(d, v, o, g, f);
          }
      }
      if bad.Some? {
        return bad;
      }
    }
    if o.checkRequiredFields {
      var absent := FirstAbsent(d, g.required, ms);
      if absent.Some? {
        return Some(Session(RequiredTagMissing, absent.value));
      }
    }
    r := None;
  }

  /** Where the first group counted by `tag` stands in a member list. */
  function FirstGroup(ms: seq<Member>, tag: Tag): (r: Option<nat>)
    ensures r.Some? ==> r.value < |ms| && ms[r.value].GroupMember? && ms[r.value].countTag == tag
    ensures forall i :: 0 <= i < |ms| && ms[i].GroupMember? && ms[i].countTag == tag ==> r.Some? && r.value <= i
  {
    if ms == [] then None
    else if ms[0].GroupMember? && ms[0].countTag == tag then Some(0)
    else match FirstGroup(ms[1..], tag)
      case None => None
      case Some(i) => Some(i + 1)
  }

  /** The structured check of the first group counted by `tag` in one section. */
  function CheckFirst(d: Dict, v: Formats, o: Options, ms: seq<Member>, tag: Tag): (r: Option<Rejection>) {
    match FirstGroup(ms, tag)
    case None => None
    case Some(i) => CheckGroup(d, v, o, ms[i].entries, ms[i].declared, Following(ms[i..], None), tag)
  }

  /** The structured checks of header and body, count tag by count tag. */
  function CheckFirsts(d: Dict, v: Formats, o: Options, order: seq<Tag>, header: seq<Member>, body: seq<Member>): (r: Option<Rejection>) {
    if order == [] then None
    else if CheckFirst(d, v, o, header, order[0]).Some? then CheckFirst(d, v, o, header, order[0])
    else if CheckFirst(d, v, o, body, order[0]).Some? then CheckFirst(d, v, o, body, order[0])
    else CheckFirsts(d, v, o, order[1..], header, body)
  }

  /** The whole group check of a message; `order` is the order in which the count tags are visited. */
  function CheckGroups(d: Dict, v: Formats, o: Options, order: seq<Tag>, m: Message): (r: Option<Rejection>) {
    if CheckFirsts(d, v, o, order, m.header.members, m.body.members).Some?
    then CheckFirsts(d, v, o, order, m.header.members, m.body.members)
    else
      var h := ScanSection(d, v, o, PlainFields(m.header.members), 0);
      var b := ScanSection(d, v, o, PlainFields(m.body.members), 0);
      if h.Err? then Some(h.error) else if b.Err? then Some(b.error) else None
  }

  method ValidateSection(d: Dict, v: Formats, o: Options, fields: seq<Field>) returns (r: Option<Rejection>)
    ensures r == var s := ScanSection(d, v, o, fields, 0); if s.Err? then Some(s.error) else None
  {
    var pos := 0;
    while pos < |fields|
      invariant pos <= |fields|
      invariant ScanSection(d, v, o, fields, 0) == ScanSection(d, v, o, fields, pos)
    {
      if fields[pos].tag in d.groups {
        var one := ValidateGroup(d, v, o, fields, pos, fields[pos].tag);
        match one {
          case Err(e) => return Some(e);
          case Ok(p) => pos := p;
        }
      } else {
        pos := pos + 1;
      }
    }
    r := None;
  }

  method ValidateFirst(d: Dict, v: Formats, o: Options, ms: seq<Member>, tag: Tag) returns (r: Option<Rejection>)
    ensures r == CheckFirst(d, v, o, ms, tag)
  {
    var first := FirstGroup(ms, tag);
    match first {
      case None => r := None;
      case Some(i) =>
        r := ValidateStructuredGroup(d, v, o, ms[i].entries, ms[i].declared, Following(ms[i..], None), tag);
    }
  }

  method ValidateGroups(d: Dict, v: Formats, o: Options, order: seq<Tag>, m: Message) returns (r: Option<Rejection>)
    ensures r == CheckGroups(d, v, o, order, m)
  {
    var header, body := m.header.members, m.body.members;
    for i := 0 to |order|
      invariant CheckFirsts(d, v, o, order, header, body) == CheckFirsts(d, v, o, order[i..], header, body)
    {
      assert order[i..][0] == order[i] && order[i..][1..] == order[i + 1..];
      r := ValidateFirst(d, v, o, header, order[i]);
      if r.Some? {
        return;
      }
      r := ValidateFirst(d, v, o, body, order[i]);
      if r.Some? {
        return;
      }
    }
    r := ValidateSection(d, v, o, PlainFields(header));
    if r.None? {
      r := ValidateSection(d, v, o, PlainFields(body));
    }
  }
}
