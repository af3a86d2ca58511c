/** Validation of a whole message under the fifteen option flags (`validate` in
    `truefix-dict/src/validate.rs`), and what relaxing the options can and cannot change. */
module Validation {
  import opened Decimal
  import opened FieldMaps
  import opened Dictionary
  import opened Grouping
  import opened FlatGroups
  import opened StructuredGroups
  import opened GroupConformance
  import opened Graphs
  import GroupClosure

  const UDF_START: Tag := 5000
  const REVERSE_ROUTE_TAGS: set<Tag> := {115, 116, 128, 129, 144, 145}
  const HEADER_REQUIRED: seq<Tag> := [8, 9, 35]
  const TRAILER_REQUIRED: seq<Tag> := [10]

  /** The dictionary as `validate` consults it: the version it stands for and every tag `is_header` admits. */
  datatype Rules = Rules(dict: Dict, version: Option<Version>, headerTags: set<Tag>)

  predicate Belongs(r: Rules, mdef: MessageDef, tag: Tag) {
    tag in r.headerTags || tag in r.dict.trailer
    || tag in mdef.required || tag in mdef.optional || tag in mdef.memberTags
  }

  /** The checks on one top-level field; `seen` holds the tags that must not come again. */
  function CheckField(r: Rules, v: Formats, o: Options, mdef: MessageDef, f: Field, seen: set<Tag>): (x: Result<set<Tag>>) {
    var tag := f.tag;
    var once := o.checkRepeatedTags && tag !in mdef.memberTags;
    if tag >= UDF_START && !o.validateUserDefinedFields then Ok(seen)
    else if once && tag in seen then Err(Session(TagAppearsMoreThanOnce, tag))
    else if o.validateFieldsHaveValues && f.value == [] && tag !in REVERSE_ROUTE_TAGS
    then Err(Session(TagSpecifiedWithoutValue, tag))
    else
      var seen' := if once then seen + {tag} else seen;
      if tag !in r.dict.fields then
        if o.allowUnknownMsgFields then Ok(seen') else Err(Session(InvalidTagNumber, tag))
      else
        var def := r.dict.fields[tag];
        var typed := o.checkFieldTypes && tag != 8 && tag != 10;
        if typed && !v.wellFormed(def, f.value) then Err(Session(IncorrectDataFormat, tag))
        else if typed && !v.allowed(def, f.value) then Err(Session(ValueIsIncorrect, tag))
        else if !Belongs(r, mdef, tag) && !o.allowUnknownMsgFields then Err(Session(TagNotDefinedForMessageType, tag))
        else Ok(seen')
  }

  function CheckFields(r: Rules, v: Formats, o: Options, mdef: MessageDef, fs: seq<Field>, seen: set<Tag>): (x: Option<Rejection>) {
    if fs == [] then None
    else match CheckField(r, v, o, mdef, fs[0], seen)
      case Err(e) => Some(e)
      case Ok(seen') => CheckFields(r, v, o, mdef, fs[1..], seen')
  }

  predicate Present(m: Message, tag: Tag) {
    || (exists i :: 0 <= i < |m.header.members| && TagOf(m.header.members[i]) == tag)
    || (exists i :: 0 <= i < |m.body.members| && TagOf(m.body.members[i]) == tag)
    || (exists i :: 0 <= i < |m.trailer.members| && TagOf(m.trailer.members[i]) == tag)
  }

  function FirstNotPresent(m: Message, tags: seq<Tag>): (x: Option<Rejection>) {
    if tags == [] then None
    else if !Present(m, tags[0]) then Some(Session(RequiredTagMissing, tags[0]))
    else FirstNotPresent(m, tags[1..])
  }

  function OrElse<T>(a: Option<T>, b: Option<T>): (c: Option<T>) {
    if a.Some? then a else b
  }

  /** The checks made before the message type is looked up. */
  function CheckEnvelope(r: Rules, v: Formats, o: Options, m: Message): (x: Option<Rejection>) {
    var header := m.header.members;
    var begin := GetField(header, 8);
    var spoken := if begin.Some? then v.version(begin.value.value) else None;
    if r.version.Some? && spoken.Some? && spoken != r.version then Some(Session(ValueIsIncorrect, 8))
    else if o.validateFieldsOutOfOrder && m.outOfOrder then Some(Rejection(TagOutOfRequiredOrder, None, false))
    else
      var dup := GetField(header, 43);
      if dup.Some? && dup.value.value == [89] then
        if !o.allowPosDup then Some(Session(ValueIsIncorrect, 43))
        else if o.requiresOrigSendingTime && GetField(header, 122).None? then Some(Session(RequiredTagMissing, 122))
        else None
      else None
  }

  function FindMessage(r: Rules, v: Formats, m: Message): (x: Result<MessageDef>) {
    var field := GetField(m.header.members, 35);
    var name := if field.Some? then v.text(field.value.value) else None;
    if name.None? then Err(Session(InvalidMsgType, 35))
    else if name.value !in r.dict.messages then Err(Rejection(InvalidMsgType, Some(35), true))
    else Ok(r.dict.messages[name.value])
  }

  function CheckRequired(o: Options, mdef: MessageDef, m: Message): (x: Option<Rejection>) {
    if !o.checkRequiredFields then None
    else
      OrElse(FirstNotPresent(m, mdef.required),
             if !o.checkRequiredEnvelopeFields then None
             else OrElse(FirstNotPresent(m, HEADER_REQUIRED), FirstNotPresent(m, TRAILER_REQUIRED)))
  }

  function TopLevelFields(m: Message): (fs: seq<Field>) {
    PlainFields(m.header.members) + PlainFields(m.body.members) + PlainFields(m.trailer.members)
  }

  /** The first failure found, or `None` for a valid message. */
  function Validate(r: Rules, v: Formats, o: Options, order: seq<Tag>, m: Message): (x: Option<Rejection>) {
    if !o.validateIncomingMessage then None
    else if CheckEnvelope(r, v, o, m).Some? then CheckEnvelope(r, v, o, m)
    else match FindMessage(r, v, m)
      case Err(e) => Some(e)
      case Ok(mdef) =>
        OrElse(CheckFields(r, v, o, mdef, TopLevelFields(m), {}),
               OrElse(if o.checkGroups then CheckGroups(r.dict, v, o, order, m) else None,
                      CheckRequired(o, mdef, m)))
  }

  /** A dictionary's rules: the header tags are those listed and all their groups bring along. */
  ghost function RulesOf(d: Dict, version: Option<Version>): (r: Rules) {
    Rules(d, version, d.header + GroupClosure.Closure(d.groups, d.header))
  }

  /** These are exactly the tags `is_header` admits, wherever that recursion ends. */
  lemma HeaderTagsAreHeader(d: Dict, version: Option<Version>, tag: Tag)
    requires Acyclic(GroupClosure.MemberGraph(d.groups))
    ensures tag in RulesOf(d, version).headerTags <==> GroupClosure.IsHeader(d, tag)
  {
    GroupClosure.IsHeaderIsClosure(d, tag);
  }

  method CollectRules(d: Dict, version: Option<Version>) returns (r: Rules)
    ensures r == RulesOf(d, version)
  {
    var seeds: seq<Tag>, todo := [], d.header;
    while todo != {}
      invariant todo <= d.header && forall t :: t in seeds <==> t in d.header && t !in todo
      decreases todo
    {
      var t :| t in todo;
      seeds, todo := seeds + [t], todo - {t};
    }
    assert (set t | t in seeds) == d.header;
    var members := GroupClosure.CollectAll(d.groups, seeds);
    r := Rules(d, version, d.header + members);
  }

  /** `validate`, with its loops. */
  method ValidateMessage(d: Dict, version: Option<Version>, v: Formats, o: Options, order: seq<Tag>, m: Message)
    returns (x: Option<Rejection>)
    ensures x == Validate(RulesOf(d, version), v, o, order, m)
  {
    var r := CollectRules(d, version);
    if !o.validateIncomingMessage {
      return None;
    }
    x := CheckEnvelope(r, v, o, m);
    if x.Some? {
      return;
    }
    var found := FindMessage(r, v, m);
    if found.Err? {
      return Some(found.error);
    }
    var mdef, fs, seen := found.value, TopLevelFields(m), {};
    for i := 0 to |fs|
      invariant CheckFields(r, v, o, mdef, fs, {}) == CheckFields(r, v, o, mdef, fs[i..], seen)
    {
      assert fs[i..][0] == fs[i] && fs[i..][1..] == fs[i + 1..];
      var one := CheckField(r, v, o, mdef, fs[i], seen);
      if one.Err? {
        return Some(one.error);
      }
      seen := one.value;
    }
    if o.checkGroups {
      x := ValidateGroups(r.dict, v, o, order, m);
      if x.Some? {
        return;
      }
    }
    x := CheckRequired(o, mdef, m);
  }

  // ----- relaxing the options

  /** `o'` asks for no check that `o` does not ask for. Nothing is said of
      `firstFieldInGroupIsDelimiter` and of `validateChecksum`. */
  ghost predicate Relaxes(o': Options, o: Options) {
    && (o'.validateFieldsHaveValues ==> o.validateFieldsHaveValues)
    && (o'.validateUserDefinedFields ==> o.validateUserDefinedFields)
    && (o.allowUnknownMsgFields ==> o'.allowUnknownMsgFields)
    && (o'.checkRequiredFields ==> o.checkRequiredFields)
    && (o'.checkFieldTypes ==> o.checkFieldTypes)
    && (o'.checkGroups ==> o.checkGroups)
    && (o'.validateUnorderedGroupFields ==> o.validateUnorderedGroupFields)
    && (o'.checkRepeatedTags ==> o.checkRepeatedTags)
    && (o'.validateFieldsOutOfOrder ==> o.validateFieldsOutOfOrder)
    && (o'.validateIncomingMessage ==> o.validateIncomingMessage)
    && (o.allowPosDup ==> o'.allowPosDup)
    && (o'.requiresOrigSendingTime ==> o.requiresOrigSendingTime)
    && (o'.checkRequiredEnvelopeFields ==> o.checkRequiredEnvelopeFields)
  }

  lemma {:induction false} FieldsRelaxed(
    r: Rules, v: Formats, o: Options, o': Options, mdef: MessageDef, fs: seq<Field>, seen: set<Tag>, seen': set<Tag>)
    requires Relaxes(o', o) && seen' <= seen && CheckFields(r, v, o, mdef, fs, seen).None?
    ensures CheckFields(r, v, o', mdef, fs, seen').None?
  {
    if fs != [] {
      FieldsRelaxed(r, v, o, o', mdef, fs[1..],
                    CheckField(r, v, o, mdef, fs[0], seen).value, CheckField(r, v, o', mdef, fs[0], seen').value);
    }
  }

  lemma ValueRelaxed(d: Dict, v: Formats, o: Options, o': Options, g: GroupDef, f: Field)
    requires Relaxes(o', o) && EntryFieldValue(d, v, o, g, f).None?
    ensures EntryFieldValue(d, v, o', g, f).None?
  {
  }

  lemma {:induction false} ConformsRelaxed(d: Dict, v: Formats, o: Options, o': Options, m: Member)
    requires Relaxes(o', o) && ConformsGroup(d, v, o, m)
    ensures ConformsGroup(d, v, o', m)
    decreases m, 0
  {
    var g := d.groups[m.countTag];
    forall i | 0 <= i < |m.entries| ensures ConformsEntry(d, v, o', g, m.entries[i]) {
      var ms := m.entries[i].members;
      assert ConformsEntry(d, v, o, g, m.entries[i]);
      assert ConformsDelimiter(d, v, o', g, ms[0]);
      forall j | 1 <= j < |ms| ensures ConformsMember(d, v, o', g, ms[j]) {
        assert ConformsMember(d, v, o, g, ms[j]);
        if TagOf(ms[j]) in d.groups {
          ConformsRelaxed(d, v, o, o', ms[j]);
        } else {
          ValueRelaxed(d, v, o, o', g, ms[j].field);
        }
      }
    }
  }

  /** Under relaxed options the flat validator still accepts, and stops at the same place. */
  lemma ScanRelaxed(d: Dict, v: Formats, o: Options, o': Options, body: seq<Field>, pos: nat, tag: Tag)
    requires Relaxes(o', o) && pos < |body| && tag in d.groups && ScanGroup(d, v, o, body, pos, tag).Ok?
    ensures ScanGroup(d, v, o', body, pos, tag) == ScanGroup(d, v, o, body, pos, tag)
  {
    GroupAtBuilt(d.groups, body, pos, tag, |body|);
    ScanGroupIsConformance(d, v, o, body, pos, tag, |body|);
    ScanGroupIsConformance(d, v, o', body, pos, tag, |body|);
    ConformsRelaxed(d, v, o, o', GroupAt(d.groups, body, pos, tag, |body|).value);
  }

  lemma {:induction false} ScanSectionRelaxed(d: Dict, v: Formats, o: Options, o': Options, fields: seq<Field>, pos: nat)
    requires Relaxes(o', o) && pos <= |fields| && ScanSection(d, v, o, fields, pos).Ok?
    ensures ScanSection(d, v, o', fields, pos).Ok?
    decreases |fields| - pos
  {
    if pos < |fields| {
      var next := pos + 1;
      if fields[pos].tag in d.groups {
        ScanRelaxed(d, v, o, o', fields, pos, fields[pos].tag);
        next := ScanGroup(d, v, o, fields, pos, fields[pos].tag).value;
      }
      ScanSectionRelaxed(d, v, o, o', fields, next);
    }
  }

  lemma {:induction false} CheckGroupRelaxed(
    d: Dict, v: Formats, o: Options, o': Options, entries: seq<FieldMap>, declared: Option<int>, next: Option<Tag>, tag: Tag)
    requires Relaxes(o', o) && CheckGroup(d, v, o, entries, declared, next, tag).None?
    ensures CheckGroup(d, v, o', entries, declared, next, tag).None?
    decreases entries, 1
  {
    if tag in d.groups {
      CheckEntriesRelaxed(d, v, o, o', d.groups[tag], entries, next);
    }
  }

  lemma {:induction false} CheckEntriesRelaxed(
    d: Dict, v: Formats, o: Options, o': Options, g: GroupDef, entries: seq<FieldMap>, next: Option<Tag>)
    requires Relaxes(o', o) && CheckEntries(d, v, o, g, entries, next).None?
    ensures CheckEntries(d, v, o', g, entries, next).None?
    decreases entries, 0
  {
    if entries != [] {
      CheckMembersRelaxed(d, v, o, o', g, entries[0].members, 0, next);
      CheckEntriesRelaxed(d, v, o, o', g, entries[1..], next);
    }
  }

  lemma {:induction false} CheckMembersRelaxed(
    d: Dict, v: Formats, o: Options, o': Options, g: GroupDef, ms: seq<Member>, lastIdx: nat, next: Option<Tag>)
    requires Relaxes(o', o) && CheckMembers(d, v, o, g, ms, lastIdx, next).None?
    ensures CheckMembers(d, v, o', g, ms, lastIdx, next).None?
    decreases ms, 0
  {
    if ms != [] {
      if TagOf(ms[0]) !in g.members {
        CheckMembersRelaxed(d, v, o, o', g, ms[1..], lastIdx, next);
      } else {
        match ms[0] {
          case GroupMember(ct, entries, declared) =>
            CheckGroupRelaxed(d, v, o, o', entries, declared, Following(ms, next), ct);
          case FieldMember(f) =>
            ValueRelaxed(d, v, o, o', g, f);
        }
        CheckMembersRelaxed(d, v, o, o', g, ms[1..], Index(g.members, TagOf(ms[0])), next);
      }
    }
  }

  lemma CheckFirstRelaxed(d: Dict, v: Formats, o: Options, o': Options, ms: seq<Member>, tag: Tag)
    requires Relaxes(o', o) && CheckFirst(d, v, o, ms, tag).None?
    ensures CheckFirst(d, v, o', ms, tag).None?
  {
    match FirstGroup(ms, tag)
    case None =>
    case Some(i) => CheckGroupRelaxed(d, v, o, o', ms[i].entries, ms[i].declared, Following(ms[i..], None), tag);
  }

  lemma {:induction false} CheckFirstsRelaxed(
    d: Dict, v: Formats, o: Options, o': Options, order: seq<Tag>, header: seq<Member>, body: seq<Member>)
    requires Relaxes(o', o) && CheckFirsts(d, v, o, order, header, body).None?
    ensures CheckFirsts(d, v, o', order, header, body).None?
  {
    hide CheckFirst;
    if order != [] {
      CheckFirstRelaxed(d, v, o, o', header, order[0]);
      CheckFirstRelaxed(d, v, o, o', body, order[0]);
      CheckFirstsRelaxed(d, v, o, o', order[1..], header, body);
    }
  }

  lemma CheckGroupsRelaxed(d: Dict, v: Formats, o: Options, o': Options, order: seq<Tag>, m: Message)
    requires Relaxes(o', o) && CheckGroups(d, v, o, order, m).None?
    ensures CheckGroups(d, v, o', order, m).None?
  {
    hide CheckFirsts;
    hide ScanSection;
    CheckFirstsRelaxed(d, v, o, o', order, m.header.members, m.body.members);
    ScanSectionRelaxed(d, v, o, o', PlainFields(m.header.members), 0);
    ScanSectionRelaxed(d, v, o, o', PlainFields(m.body.members), 0);
  }

  /** Relaxing any set of options never turns an accepted message into a rejected one. */
  lemma RelaxingKeepsAcceptance(r: Rules, v: Formats, o: Options, o': Options, order: seq<Tag>, m: Message)
    requires Relaxes(o', o) && Validate(r, v, o, order, m).None?
    ensures Validate(r, v, o', order, m).None?
  {
    hide CheckFields;
    hide CheckGroups;
    hide FirstNotPresent;
    hide PlainFields;
    if o'.validateIncomingMessage {
      var mdef := FindMessage(r, v, m).value;
      FieldsRelaxed(r, v, o, o', mdef, TopLevelFields(m), {}, {});
      if o'.checkGroups {
        CheckGroupsRelaxed(r.dict, v, o, o', order, m);
      }
    }
  }

  /** Requiring entries to begin with their delimiter changes the reject reason at most, never the verdict. */
  lemma DelimiterFlagKeepsVerdict(r: Rules, v: Formats, o: Options, flag: bool, order: seq<Tag>, m: Message)
    ensures Validate(r, v, o.(firstFieldInGroupIsDelimiter := flag), order, m).None? <==> Validate(r, v, o, order, m).None?
  {
    hide Validate;
    var o' := o.(firstFieldInGroupIsDelimiter := flag);
    if Validate(r, v, o, order, m).None? { RelaxingKeepsAcceptance(r, v, o, o', order, m); }
    if Validate(r, v, o', order, m).None? { RelaxingKeepsAcceptance(r, v, o', o, order, m); }
  }
}
