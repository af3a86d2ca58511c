/** What a valid message is, said on the message and the dictionary alone, and `validate` against it: which
    messages it accepts and, for the others, which rejection they get. */
module MessageValidity {
  import opened Decimal
  import opened FieldMaps
  import opened Dictionary
  import opened Grouping
  import opened FlatGroups
  import opened StructuredGroups
  import opened GroupConformance
  import opened StructuredConformance
  import opened GroupAgreement
  import GroupFaults
  import opened Validation
  import opened Graphs
  import GroupClosure

  // ----- the header

  /** The first plain field with the tag has this value. */
  ghost predicate Carries(ms: seq<Member>, tag: Tag, value: seq<Byte>) {
    exists i :: 0 <= i < |ms| && ms[i] == FieldMember(Field(tag, value)) && forall j :: 0 <= j < i ==> !HasTag(ms[j], tag)
  }

  ghost predicate HasTag(m: Member, tag: Tag) {
    m.FieldMember? && m.field.tag == tag
  }

  /** Every top-level member, in wire order. */
  function AllMembers(m: Message): (ms: seq<Member>) {
    m.header.members + m.body.members + m.trailer.members
  }

  ghost predicate VersionAgrees(version: Option<Version>, v: Formats, header: seq<Member>) {
    forall value :: Carries(header, 8, value) && version.Some? && v.version(value).Some? ==> v.version(value) == version
  }

  /** A message marked as possibly duplicate. */
  ghost predicate MarkedDuplicate(header: seq<Member>) {
    Carries(header, 43, [89])
  }

  ghost predicate OriginGiven(header: seq<Member>) {
    exists i :: 0 <= i < |header| && HasTag(header[i], 122)
  }

  ghost predicate NamesType(v: Formats, header: seq<Member>, name: string) {
    exists value :: Carries(header, 35, value) && v.text(value) == Some(name)
  }

  // ----- the fields

  /** The tag is the header's, the trailer's or the message's, groups included. */
  ghost predicate BelongsTo(d: Dict, mdef: MessageDef, tag: Tag) {
    || (exists h :: h in d.header && (h == tag || Reaches(GroupClosure.MemberGraph(d.groups), h, tag)))
    || tag in d.trailer || tag in mdef.required || tag in mdef.optional || tag in mdef.memberTags
  }

  ghost predicate Skipped(o: Options, tag: Tag) {
    tag >= 5000 && !o.validateUserDefinedFields
  }

  ghost predicate Repeated(o: Options, mdef: MessageDef, ms: seq<Member>, i: nat)
    requires i < |ms|
  {
    && o.checkRepeatedTags && TagOf(ms[i]) !in mdef.memberTags
    && exists j :: 0 <= j < i && HasTag(ms[j], TagOf(ms[i]))
  }

  ghost predicate Valueless(o: Options, f: Field) {
    o.validateFieldsHaveValues && f.value == [] && f.tag !in {115, 116, 128, 129, 144, 145}
  }

  ghost predicate Typed(o: Options, f: Field) {
    o.checkFieldTypes && f.tag != 8 && f.tag != 10
  }

  /** What is wrong with the plain field at `i`, if anything: the first of these. */
  ghost function Fault(d: Dict, v: Formats, o: Options, mdef: MessageDef, ms: seq<Member>, i: nat): (x: Option<RejectReason>)
    requires i < |ms| && ms[i].FieldMember?
  {
    var f := ms[i].field;
    if Skipped(o, f.tag) then None
    else if Repeated(o, mdef, ms, i) then Some(TagAppearsMoreThanOnce)
    else if Valueless(o, f) then Some(TagSpecifiedWithoutValue)
    else if f.tag !in d.fields then (if o.allowUnknownMsgFields then None else Some(InvalidTagNumber))
    else if Typed(o, f) && !v.wellFormed(d.fields[f.tag], f.value) then Some(IncorrectDataFormat)
    else if Typed(o, f) && !v.allowed(d.fields[f.tag], f.value) then Some(ValueIsIncorrect)
    else if !o.allowUnknownMsgFields && !BelongsTo(d, mdef, f.tag) then Some(TagNotDefinedForMessageType)
    else None
  }

  /** The field is skipped, or all is well with it. */
  ghost predicate ValidField(d: Dict, v: Formats, o: Options, mdef: MessageDef, ms: seq<Member>, i: nat)
    requires i < |ms| && ms[i].FieldMember?
  {
    var f := ms[i].field;
    || Skipped(o, f.tag)
    || (&& !Repeated(o, mdef, ms, i)
        && !Valueless(o, f)
        && (f.tag in d.fields || o.allowUnknownMsgFields)
        && (f.tag in d.fields && Typed(o, f) ==> Fits(v, d.fields[f.tag], f.value))
        && (f.tag in d.fields && !o.allowUnknownMsgFields ==> BelongsTo(d, mdef, f.tag)))
  }

  ghost predicate ValidFields(d: Dict, v: Formats, o: Options, mdef: MessageDef, ms: seq<Member>) {
    forall i :: 0 <= i < |ms| && ms[i].FieldMember? ==> ValidField(d, v, o, mdef, ms, i)
  }

  // ----- groups and required fields

  /** The first group of each count tag is acceptable, and the groups spelled out in plain fields conform. */
  ghost predicate ValidGroups(d: Dict, v: Formats, o: Options, ms: seq<Member>) {
    var fields := PlainFields(ms);
    var spelled := SectionAt(d.groups, fields, 0, |fields|);
    && (forall i: nat :: IsFirst(ms, i) ==> AcceptedGroup(d, v, o, ms[i]))
    && spelled.Built? && ConformsSection(d, v, o, spelled.value)
  }

  ghost predicate HasAll(ms: seq<Member>, tags: seq<Tag>) {
    forall t :: t in tags ==> exists i :: 0 <= i < |ms| && TagOf(ms[i]) == t
  }

  ghost predicate Complete(o: Options, mdef: MessageDef, ms: seq<Member>) {
    o.checkRequiredFields ==>
      && HasAll(ms, mdef.required)
      && (o.checkRequiredEnvelopeFields ==> HasAll(ms, ENVELOPE))
  }

  /** A valid message. */
  ghost predicate Valid(d: Dict, version: Option<Version>, v: Formats, o: Options, m: Message) {
    var header, ms := m.header.members, AllMembers(m);
    o.validateIncomingMessage ==>
      && VersionAgrees(version, v, header)
      && (o.validateFieldsOutOfOrder ==> !m.outOfOrder)
      && (MarkedDuplicate(header) ==> o.allowPosDup && (o.requiresOrigSendingTime ==> OriginGiven(header)))
      && exists name :: NamesType(v, header, name) && name in d.messages
                        && ValidAs(d, v, o, d.messages[name], m)
  }

  ghost predicate ValidAs(d: Dict, v: Formats, o: Options, mdef: MessageDef, m: Message) {
    && ValidFields(d, v, o, mdef, AllMembers(m))
    && (o.checkGroups ==> ValidGroups(d, v, o, m.header.members) && ValidGroups(d, v, o, m.body.members))
    && Complete(o, mdef, AllMembers(m))
  }

  // ----- the header is read as said

  lemma {:induction false} GetFieldCarries(ms: seq<Member>, tag: Tag, value: seq<Byte>)
    ensures Carries(ms, tag, value) <==> GetField(ms, tag) == Some(Field(tag, value))
  {
    if ms != [] {
      var rest := ms[1..];
      GetFieldCarries(rest, tag, value);
      assert forall i :: 1 <= i < |ms| ==> ms[i] == rest[i - 1];
      if HasTag(ms[0], tag) {
        if ms[0].field.value == value { assert ms[0] == FieldMember(Field(tag, value)); }
      } else {
        CarriesTail(ms, tag, value);
      }
    }
  }

  lemma CarriesTail(ms: seq<Member>, tag: Tag, value: seq<Byte>)
    requires ms != [] && !HasTag(ms[0], tag)
    ensures Carries(ms, tag, value) <==> Carries(ms[1..], tag, value)
  {
    hide HasTag;
    var rest, m := ms[1..], FieldMember(Field(tag, value));
    assert forall i :: 1 <= i < |ms| ==> ms[i] == rest[i - 1];
    if Carries(rest, tag, value) {
      var i :| 0 <= i < |rest| && rest[i] == m && forall j :: 0 <= j < i ==> !HasTag(rest[j], tag);
      assert ms[i + 1] == m && forall j :: 0 <= j < i + 1 ==> !HasTag(ms[j], tag);
    }
    if Carries(ms, tag, value) {
      assert m != ms[0] by { assert HasTag(m, tag) by { CarrierHasTag(tag, value); } }
      var i :| 0 <= i < |ms| && ms[i] == m && forall j :: 0 <= j < i ==> !HasTag(ms[j], tag);
      assert rest[i - 1] == m;
      assert forall j :: 0 <= j < i - 1 ==> rest[j] == ms[j + 1];
    }
  }

  lemma CarrierHasTag(tag: Tag, value: seq<Byte>)
    ensures HasTag(FieldMember(Field(tag, value)), tag)
  {
  }

  lemma {:induction false} GetFieldTag(ms: seq<Member>, tag: Tag)
    ensures GetField(ms, tag).Some? ==> GetField(ms, tag).value.tag == tag
  {
    if ms != [] { GetFieldTag(ms[1..], tag); }
  }

  /** The field found is the one carried. */
  lemma Found(ms: seq<Member>, tag: Tag)
    ensures var f := GetField(ms, tag);
            forall value :: Carries(ms, tag, value) <==> f.Some? && f.value.value == value
  {
    hide GetField;
    GetFieldTag(ms, tag);
    forall value ensures Carries(ms, tag, value) <==> GetField(ms, tag) == Some(Field(tag, value)) {
      GetFieldCarries(ms, tag, value);
    }
  }

  /** The checks of the envelope, in their order. */
  lemma EnvelopeChecked(d: Dict, version: Option<Version>, v: Formats, o: Options, m: Message)
    ensures CheckEnvelope(RulesOf(d, version), v, o, m) ==
            var header := m.header.members;
            if !VersionAgrees(version, v, header) then Some(Session(ValueIsIncorrect, 8))
            else if o.validateFieldsOutOfOrder && m.outOfOrder then Some(Rejection(TagOutOfRequiredOrder, None, false))
            else if MarkedDuplicate(header) && !o.allowPosDup then Some(Session(ValueIsIncorrect, 43))
            else if MarkedDuplicate(header) && o.requiresOrigSendingTime && !OriginGiven(header)
            then Some(Session(RequiredTagMissing, 122))
            else None
  {
    hide GetField;
    hide Carries;
    var header := m.header.members;
    Found(header, 8);
    Found(header, 43);
    GetFieldFinds(header, 122);
    if GetField(header, 8).Some? { assert Carries(header, 8, GetField(header, 8).value.value); }
  }

  lemma TypeNamed(d: Dict, version: Option<Version>, v: Formats, m: Message)
    ensures var x := FindMessage(RulesOf(d, version), v, m);
            && (x.Ok? <==> exists name :: NamesType(v, m.header.members, name) && name in d.messages)
            && (forall name :: NamesType(v, m.header.members, name) ==>
                  x == if name in d.messages then Ok(d.messages[name]) else Err(Rejection(InvalidMsgType, Some(35), true)))
            && ((forall name :: !NamesType(v, m.header.members, name)) ==> x == Err(Session(InvalidMsgType, 35)))
  {
    hide GetField;
    hide Carries;
    var header := m.header.members;
    Found(header, 35);
    var f := GetField(header, 35);
    if f.Some? {
      assert Carries(header, 35, f.value.value);
      var name := v.text(f.value.value);
      if name.Some? { assert NamesType(v, header, name.value); }
    }
  }

  // ----- the fields are checked as said

  lemma {:induction false} PlainFieldsAppend(a: seq<Member>, b: seq<Member>)
    ensures PlainFields(a + b) == PlainFields(a) + PlainFields(b)
  {
    if a == [] {
      assert a + b == b;
    } else {
      PlainFieldsAppend(a[1..], b);
      assert (a + b)[1..] == a[1..] + b;
    }
  }

  lemma PlainFieldsOne(m: Member)
    ensures PlainFields([m]) == if m.FieldMember? then [m.field] else []
  {
  }

  /** What is kept of the fields before `i`: the tags of the checked ones that must not come again. */
  ghost predicate Remembers(o: Options, mdef: MessageDef, ms: seq<Member>, i: nat, seen: set<Tag>)
    requires i <= |ms|
  {
    forall t :: !Skipped(o, t) && o.checkRepeatedTags && t !in mdef.memberTags ==>
      (t in seen <==> exists j :: 0 <= j < i && HasTag(ms[j], t))
  }

  lemma HeaderReached(d: Dict, version: Option<Version>, mdef: MessageDef, tag: Tag)
    ensures Belongs(RulesOf(d, version), mdef, tag) <==> BelongsTo(d, mdef, tag)
  {
    forall h | h in d.header && Reaches(GroupClosure.MemberGraph(d.groups), h, tag) ensures tag in GroupClosure.Universe(d.groups) {
      GroupClosure.ReachedInUniverse(d.groups, h, tag);
    }
  }

  lemma FieldChecked(
    d: Dict, version: Option<Version>, v: Formats, o: Options, mdef: MessageDef, ms: seq<Member>, i: nat, seen: set<Tag>)
    requires i < |ms| && ms[i].FieldMember? && Remembers(o, mdef, ms, i, seen)
    ensures var x, fault := CheckField(RulesOf(d, version), v, o, mdef, ms[i].field, seen), Fault(d, v, o, mdef, ms, i);
            if fault.Some? then x == Err(Session(fault.value, ms[i].field.tag))
            else x.Ok? && Remembers(o, mdef, ms, i + 1, x.value)
  {
    hide BelongsTo;
    hide Belongs;
    hide RulesOf;
    RulesAre(d, version);
    HeaderReached(d, version, mdef, ms[i].field.tag);
    RememberedNext(ms, i);
  }

  lemma RulesAre(d: Dict, version: Option<Version>)
    ensures RulesOf(d, version).dict == d && RulesOf(d, version).version == version
  {
  }

  lemma RememberedNext(ms: seq<Member>, i: nat)
    requires i < |ms|
    ensures forall t :: (exists j :: 0 <= j < i + 1 && HasTag(ms[j], t)) <==>
                        HasTag(ms[i], t) || exists j :: 0 <= j < i && HasTag(ms[j], t)
  {
  }

  /** The fields from `i` on are checked up to the first that has a fault, which is reported. */
  lemma {:induction false} FieldsChecked(
    d: Dict, version: Option<Version>, v: Formats, o: Options, mdef: MessageDef, ms: seq<Member>, i: nat, seen: set<Tag>)
    requires i <= |ms| && Remembers(o, mdef, ms, i, seen)
    ensures var x := CheckFields(RulesOf(d, version), v, o, mdef, PlainFields(ms[i..]), seen);
            && (x.None? <==> forall k :: i <= k < |ms| && ms[k].FieldMember? ==> Fault(d, v, o, mdef, ms, k).None?)
            && (x.Some? ==> exists k :: i <= k < |ms| && FirstFault(d, v, o, mdef, ms, i, k)
                                        && x == Some(Session(Fault(d, v, o, mdef, ms, k).value, TagOf(ms[k]))))
    decreases |ms| - i
  {
    hide Fault;
    hide Remembers;
    hide CheckField;
    hide RulesOf;
    if i < |ms| {
      assert ms[i..][1..] == ms[i + 1..] && ms[i..][0] == ms[i];
      var fields := PlainFields(ms[i..]);
      if ms[i].FieldMember? {
        assert fields == [ms[i].field] + PlainFields(ms[i + 1..]);
        assert fields[1..] == PlainFields(ms[i + 1..]);
        FieldChecked(d, version, v, o, mdef, ms, i, seen);
        if Fault(d, v, o, mdef, ms, i).Some? {
          assert FirstFault(d, v, o, mdef, ms, i, i);
        } else {
          FieldsChecked(d, version, v, o, mdef, ms, i + 1, CheckField(RulesOf(d, version), v, o, mdef, ms[i].field, seen).value);
          EarlierFault(d, v, o, mdef, ms, i);
        }
      } else {
        assert [] + PlainFields(ms[i + 1..]) == PlainFields(ms[i + 1..]);
        GroupsForgotten(o, mdef, ms, i, seen);
        FieldsChecked(d, version, v, o, mdef, ms, i + 1, seen);
        EarlierFault(d, v, o, mdef, ms, i);
      }
    } else {
      assert ms[i..] == [];
    }
  }

  lemma GroupsForgotten(o: Options, mdef: MessageDef, ms: seq<Member>, i: nat, seen: set<Tag>)
    requires i < |ms| && ms[i].GroupMember? && Remembers(o, mdef, ms, i, seen)
    ensures Remembers(o, mdef, ms, i + 1, seen)
  {
    RememberedNext(ms, i);
  }

  /** `k` is the first faulty field from `i` on. */
  ghost predicate FirstFault(d: Dict, v: Formats, o: Options, mdef: MessageDef, ms: seq<Member>, i: nat, k: nat) {
    && i <= k < |ms| && ms[k].FieldMember? && Fault(d, v, o, mdef, ms, k).Some?
    && forall j :: i <= j < k && ms[j].FieldMember? ==> Fault(d, v, o, mdef, ms, j).None?
  }

  lemma EarlierFault(d: Dict, v: Formats, o: Options, mdef: MessageDef, ms: seq<Member>, i: nat)
    requires i < |ms| && (ms[i].FieldMember? ==> Fault(d, v, o, mdef, ms, i).None?)
    ensures forall k: nat :: FirstFault(d, v, o, mdef, ms, i + 1, k) ==> FirstFault(d, v, o, mdef, ms, i, k)
  {
    hide Fault;
  }

  lemma FaultlessIsValid(d: Dict, v: Formats, o: Options, mdef: MessageDef, ms: seq<Member>)
    ensures ValidFields(d, v, o, mdef, ms) <==>
            forall k :: 0 <= k < |ms| && ms[k].FieldMember? ==> Fault(d, v, o, mdef, ms, k).None?
  {
    hide Skipped;
    hide Repeated;
    hide Valueless;
    hide Typed;
    hide BelongsTo;
    forall k | 0 <= k < |ms| && ms[k].FieldMember?
      ensures ValidField(d, v, o, mdef, ms, k) <==> Fault(d, v, o, mdef, ms, k).None?
    {
    }
  }

  lemma TopLevelPlain(m: Message)
    ensures TopLevelFields(m) == PlainFields(AllMembers(m)[0..])
  {
    PlainFieldsAppend(m.header.members, m.body.members);
    PlainFieldsAppend(m.header.members + m.body.members, m.trailer.members);
    assert AllMembers(m)[0..] == AllMembers(m);
  }

  // ----- groups and required fields are checked as said

  lemma {:induction false} SectionAtBuilt(groups: Groups, toks: seq<Field>, pos: nat)
    requires pos <= |toks|
    ensures SectionAt(groups, toks, pos, |toks|).Built?
    decreases |toks| - pos
  {
    if pos < |toks| {
      if toks[pos].tag in groups { GroupAtBuilt(groups, toks, pos, toks[pos].tag, |toks|); }
      SectionAtBuilt(groups, toks, MemberAt(groups, toks, pos, |toks|).pos);
    }
  }

  /** The group check accepts exactly the valid groups of header and body. */
  lemma GroupsChecked(d: Dict, v: Formats, o: Options, order: seq<Tag>, m: Message)
    requires Enumerates(order, d.groups.Keys)
    ensures CheckGroups(d, v, o, order, m).None? <==>
            ValidGroups(d, v, o, m.header.members) && ValidGroups(d, v, o, m.body.members)
  {
    hide CheckFirst;
    hide CheckFirsts;
    hide ScanSection;
    hide ValidGroups;
    CheckFirstsNone(d, v, o, order, m.header.members, m.body.members);
    SectionChecked(d, v, o, m.header.members);
    SectionChecked(d, v, o, m.body.members);
  }

  lemma SectionChecked(d: Dict, v: Formats, o: Options, ms: seq<Member>)
    ensures FirstsChecked(d, v, o, ms) && ScanSection(d, v, o, PlainFields(ms), 0).Ok? <==> ValidGroups(d, v, o, ms)
  {
    hide CheckGroup;
    hide AcceptedGroup;
    hide IsFirst;
    hide FirstsChecked;
    var fields := PlainFields(ms);
    SectionAtBuilt(d.groups, fields, 0);
    ScanSectionIsConformance(d, v, o, fields, 0, |fields|);
    FirstsAreFirst(d, v, o, ms);
    forall i: nat | IsFirst(ms, i)
      ensures i < |ms| && ms[i].GroupMember?
      ensures CheckGroup(d, v, o, ms[i].entries, ms[i].declared, Following(ms[i..], None), ms[i].countTag).None?
              <==> AcceptedGroup(d, v, o, ms[i])
    {
      FirstInside(ms, i);
      CheckGroupAccepts(d, v, o, ms[i], Following(ms[i..], None));
    }
  }

  lemma PresentSomewhere(m: Message, tag: Tag)
    ensures Present(m, tag) <==> exists i :: 0 <= i < |AllMembers(m)| && TagOf(AllMembers(m)[i]) == tag
  {
    var h, b, t, ms := m.header.members, m.body.members, m.trailer.members, AllMembers(m);
    assert forall i :: 0 <= i < |h| ==> ms[i] == h[i];
    assert forall i :: 0 <= i < |b| ==> ms[|h| + i] == b[i];
    assert forall i :: 0 <= i < |t| ==> ms[|h| + |b| + i] == t[i];
    if i :| 0 <= i < |ms| && TagOf(ms[i]) == tag {
      if i < |h| { assert TagOf(h[i]) == tag; }
      else if i < |h| + |b| { assert TagOf(b[i - |h|]) == tag; }
      else { assert TagOf(t[i - |h| - |b|]) == tag; }
    }
  }

  /** The tag at `i` is the first of the list that no member has. */
  ghost predicate FirstLack(ms: seq<Member>, tags: seq<Tag>, i: nat)
    requires i < |tags|
  {
    HasAll(ms, tags[..i]) && !HasAll(ms, [tags[i]])
  }

  lemma HasAllCons(ms: seq<Member>, t: Tag, rest: seq<Tag>)
    ensures HasAll(ms, [t] + rest) <==> HasAll(ms, [t]) && HasAll(ms, rest)
  {
    assert forall u :: u in [t] + rest <==> u in [t] || u in rest;
  }

  lemma PresentIsHad(m: Message, tag: Tag)
    ensures Present(m, tag) <==> HasAll(AllMembers(m), [tag])
  {
    PresentSomewhere(m, tag);
    assert tag in [tag];
  }

  /** The first tag of the list that no member has is reported. */
  lemma {:induction false} FirstLacking(m: Message, tags: seq<Tag>)
    ensures FirstNotPresent(m, tags).None? <==> HasAll(AllMembers(m), tags)
    ensures FirstNotPresent(m, tags).Some? ==>
              exists i :: 0 <= i < |tags| && FirstLack(AllMembers(m), tags, i)
                          && FirstNotPresent(m, tags) == Some(Session(RequiredTagMissing, tags[i]))
  {
    hide Present;
    var ms := AllMembers(m);
    assert HasAll(ms, []);
    if tags != [] {
      hide HasAll;
      var rest := tags[1..];
      FirstLacking(m, rest);
      PresentIsHad(m, tags[0]);
      HasAllCons(ms, tags[0], rest);
      assert tags == [tags[0]] + rest;
      if !Present(m, tags[0]) {
        assert tags[..0] == [];
        assert FirstLack(ms, tags, 0);
      } else if FirstNotPresent(m, rest).Some? {
        var i :| 0 <= i < |rest| && FirstLack(ms, rest, i)
                 && FirstNotPresent(m, rest) == Some(Session(RequiredTagMissing, rest[i]));
        HasAllCons(ms, tags[0], rest[..i]);
        assert tags[..i + 1] == [tags[0]] + rest[..i] && tags[i + 1] == rest[i];
        assert FirstLack(ms, tags, i + 1);
      }
    }
  }

  lemma {:induction false} FirstLackingAppend(m: Message, a: seq<Tag>, b: seq<Tag>)
    ensures FirstNotPresent(m, a + b) == OrElse(FirstNotPresent(m, a), FirstNotPresent(m, b))
  {
    hide Present;
    if a == [] {
      assert a + b == b;
    } else {
      FirstLackingAppend(m, a[1..], b);
      assert (a + b)[1..] == a[1..] + b;
    }
  }

  /** The tags of the envelope: three of the header and one of the trailer. */
  const ENVELOPE: seq<Tag> := [8, 9, 35, 10]

  lemma EnvelopeRequired(m: Message)
    ensures FirstNotPresent(m, ENVELOPE) == OrElse(FirstNotPresent(m, HEADER_REQUIRED), FirstNotPresent(m, TRAILER_REQUIRED))
  {
    FirstLackingAppend(m, HEADER_REQUIRED, TRAILER_REQUIRED);
    assert HEADER_REQUIRED + TRAILER_REQUIRED == ENVELOPE;
  }

  lemma RequiredChecked(o: Options, mdef: MessageDef, m: Message)
    ensures CheckRequired(o, mdef, m).None? <==> Complete(o, mdef, AllMembers(m))
  {
    hide FirstNotPresent;
    FirstLacking(m, mdef.required);
    FirstLacking(m, ENVELOPE);
    EnvelopeRequired(m);
  }

  // ----- the whole

  /** `validate` accepts exactly the valid messages, for every dictionary, message and options. */
  lemma ValidateIsValidity(d: Dict, version: Option<Version>, v: Formats, o: Options, order: seq<Tag>, m: Message)
    requires Enumerates(order, d.groups.Keys)
    ensures Validate(RulesOf(d, version), v, o, order, m).None? <==> Valid(d, version, v, o, m)
  {
    hide CheckEnvelope;
    hide FindMessage;
    hide CheckFields;
    hide CheckGroups;
    hide CheckRequired;
    hide VersionAgrees;
    hide MarkedDuplicate;
    hide OriginGiven;
    hide NamesType;
    hide ValidAs;
    hide RulesOf;
    RulesAre(d, version);
    EnvelopeChecked(d, version, v, o, m);
    TypeNamed(d, version, v, m);
    var x := FindMessage(RulesOf(d, version), v, m);
    if x.Ok? {
      BodyChecked(d, version, v, o, order, x.value, m);
    }
  }

  lemma BodyChecked(
    d: Dict, version: Option<Version>, v: Formats, o: Options, order: seq<Tag>, mdef: MessageDef, m: Message)
    requires Enumerates(order, d.groups.Keys)
    ensures ValidAs(d, v, o, mdef, m) <==>
            && CheckFields(RulesOf(d, version), v, o, mdef, TopLevelFields(m), {}).None?
            && (o.checkGroups ==> CheckGroups(d, v, o, order, m).None?)
            && CheckRequired(o, mdef, m).None?
  {
    hide CheckFields;
    hide CheckGroups;
    hide CheckRequired;
    hide ValidFields;
    hide ValidGroups;
    hide Complete;
    hide Fault;
    hide RulesOf;
    TopLevelPlain(m);
    FieldsChecked(d, version, v, o, mdef, AllMembers(m), 0, {});
    FaultlessIsValid(d, v, o, mdef, AllMembers(m));
    GroupsChecked(d, v, o, order, m);
    RequiredChecked(o, mdef, m);
  }

  /** Which rejection an invalid message gets: a fault of the envelope, of the type, of the first faulty field, of a
      group, or the first required tag that is missing, looked for in this order. */
  lemma RejectedFor(d: Dict, version: Option<Version>, v: Formats, o: Options, order: seq<Tag>, mdef: MessageDef, m: Message)
    requires o.validateIncomingMessage && CheckEnvelope(RulesOf(d, version), v, o, m).None?
    requires FindMessage(RulesOf(d, version), v, m) == Ok(mdef)
    ensures var x, ms := Validate(RulesOf(d, version), v, o, order, m), AllMembers(m);
            if !ValidFields(d, v, o, mdef, ms) then
              exists k :: 0 <= k < |ms| && FirstFault(d, v, o, mdef, ms, 0, k)
                          && x == Some(Session(Fault(d, v, o, mdef, ms, k).value, TagOf(ms[k])))
            else if o.checkGroups && CheckGroups(d, v, o, order, m).Some? then x == CheckGroups(d, v, o, order, m)
            else if o.checkRequiredFields && !HasAll(ms, mdef.required) then
              exists i :: 0 <= i < |mdef.required| && FirstLack(ms, mdef.required, i)
                          && x == Some(Session(RequiredTagMissing, mdef.required[i]))
            else if o.checkRequiredFields && o.checkRequiredEnvelopeFields && !HasAll(ms, ENVELOPE) then
              exists i :: 0 <= i < 4 && FirstLack(ms, ENVELOPE, i) && x == Some(Session(RequiredTagMissing, ENVELOPE[i]))
            else x.None?
  {
    hide CheckEnvelope;
    hide FindMessage;
    hide CheckFields;
    hide CheckGroups;
    hide FirstNotPresent;
    hide ValidFields;
    hide Fault;
    hide HasAll;
    hide RulesOf;
    RulesAre(d, version);
    TopLevelPlain(m);
    FieldsChecked(d, version, v, o, mdef, AllMembers(m), 0, {});
    FaultlessIsValid(d, v, o, mdef, AllMembers(m));
    FirstLacking(m, mdef.required);
    FirstLacking(m, ENVELOPE);
    EnvelopeRequired(m);
  }

  // ----- which fault of which group

  /** The first group of the tag in the section, if there is one, has this for its first fault. */
  ghost predicate FirstFaults(d: Dict, v: Formats, o: Options, ms: seq<Member>, t: Tag, e: Rejection) {
    exists i: nat :: IsFirst(ms, i) && ms[i].countTag == t && t in d.groups && GroupFaults.FaultyGroup(d, v, o, false, ms[i], e)
  }

  lemma CheckFirstFaulty(d: Dict, v: Formats, o: Options, ms: seq<Member>, t: Tag)
    ensures var x := CheckFirst(d, v, o, ms, t); x.Some? ==> FirstFaults(d, v, o, ms, t, x.value)
  {
    hide GroupFaults.FaultyGroup;
    match FirstGroup(ms, t)
    case None =>
    case Some(i) =>
      if t in d.groups { GroupFaults.CheckGroupFaulty(d, v, o, ms[i], Following(ms[i..], None)); }
      assert IsFirst(ms, i);
  }

  /** Count tag by count tag, the header's group before the body's. */
  lemma {:induction false} CheckFirstsFaulty(
    d: Dict, v: Formats, o: Options, order: seq<Tag>, header: seq<Member>, body: seq<Member>) returns (k: nat)
    requires CheckFirsts(d, v, o, order, header, body).Some?
    ensures var e := CheckFirsts(d, v, o, order, header, body).value;
            && k < |order|
            && (forall j :: 0 <= j < k ==> CheckFirst(d, v, o, header, order[j]).None? && CheckFirst(d, v, o, body, order[j]).None?)
            && (|| FirstFaults(d, v, o, header, order[k], e)
                || (CheckFirst(d, v, o, header, order[k]).None? && FirstFaults(d, v, o, body, order[k], e)))
  {
    hide CheckFirst;
    hide FirstFaults;
    CheckFirstFaulty(d, v, o, header, order[0]);
    CheckFirstFaulty(d, v, o, body, order[0]);
    k := 0;
    if CheckFirst(d, v, o, header, order[0]).None? && CheckFirst(d, v, o, body, order[0]).None? {
      k := CheckFirstsFaulty(d, v, o, order[1..], header, body);
      assert forall j :: 1 <= j < |order| ==> order[j] == order[1..][j - 1];
      k := k + 1;
    }
  }

  /** Of the groups spelled out in plain fields, the first that does not conform is named. */
  lemma {:induction false} ScanSectionFaulty(
    d: Dict, v: Formats, o: Options, fields: seq<Field>, pos: nat, budget: nat) returns (i: nat)
    requires pos <= |fields| && SectionAt(d.groups, fields, pos, budget).Built? && ScanSection(d, v, o, fields, pos).Err?
    ensures var ms := SectionAt(d.groups, fields, pos, budget).value;
            && i < |ms| && ms[i].GroupMember? && ms[i].countTag in d.groups
            && GroupFaults.FaultyGroup(d, v, o, true, ms[i], ScanSection(d, v, o, fields, pos).error)
            && forall j :: 0 <= j < i && ms[j].GroupMember? ==> ConformsGroup(d, v, o, ms[j])
    decreases |fields| - pos
  {
    hide ConformsGroup;
    hide GroupFaults.FaultyGroup;
    hide ScanGroup;
    i := 0;
    var one := MemberAt(d.groups, fields, pos, budget);
    var rest := SectionAt(d.groups, fields, one.pos, budget).value;
    var ms, t := [one.value] + rest, fields[pos].tag;
    if t in d.groups {
      GroupFaults.ScanGroupFaulty(d, v, o, fields, pos, t, budget);
      ScanGroupIsConformance(d, v, o, fields, pos, t, budget);
    }
    if t !in d.groups || ScanGroup(d, v, o, fields, pos, t).Ok? {
      i := ScanSectionFaulty(d, v, o, fields, one.pos, budget);
      assert forall j :: 1 <= j < |ms| ==> ms[j] == rest[j - 1];
      i := i + 1;
    }
  }

  ghost predicate SpelledFault(d: Dict, v: Formats, o: Options, ms: seq<Member>, e: Rejection) {
    var fields := PlainFields(ms);
    var spelled := SectionAt(d.groups, fields, 0, |fields|);
    spelled.Built? && exists i :: 0 <= i < |spelled.value| && FirstUnfit(d, v, o, spelled.value, i, e)
  }

  ghost predicate FirstUnfit(d: Dict, v: Formats, o: Options, ms: seq<Member>, i: nat, e: Rejection)
    requires i < |ms|
  {
    && ms[i].GroupMember? && ms[i].countTag in d.groups && GroupFaults.FaultyGroup(d, v, o, true, ms[i], e)
    && forall j :: 0 <= j < i && ms[j].GroupMember? ==> ConformsGroup(d, v, o, ms[j])
  }

  lemma SpelledFaulty(d: Dict, v: Formats, o: Options, ms: seq<Member>)
    requires ScanSection(d, v, o, PlainFields(ms), 0).Err?
    ensures SpelledFault(d, v, o, ms, ScanSection(d, v, o, PlainFields(ms), 0).error)
  {
    hide ConformsGroup;
    hide GroupFaults.FaultyGroup;
    hide ScanSection;
    var fields := PlainFields(ms);
    SectionAtBuilt(d.groups, fields, 0);
    var i := ScanSectionFaulty(d, v, o, fields, 0, |fields|);
    var spelled, e := SectionAt(d.groups, fields, 0, |fields|).value, ScanSection(d, v, o, fields, 0).error;
    assert FirstUnfit(d, v, o, spelled, i, e);
  }

  /** What the group check of a message names: the first fault of the first structured group that has one, by count tag
      and header before body; if these pass, of the first group spelled out in the header's plain fields, then in the
      body's. */
  lemma GroupsRejected(d: Dict, v: Formats, o: Options, order: seq<Tag>, m: Message)
    requires CheckGroups(d, v, o, order, m).Some?
    ensures var header, body, e := m.header.members, m.body.members, CheckGroups(d, v, o, order, m).value;
            if CheckFirsts(d, v, o, order, header, body).Some? then
              exists k :: 0 <= k < |order| && (FirstFaults(d, v, o, header, order[k], e) || FirstFaults(d, v, o, body, order[k], e))
                          && forall j :: 0 <= j < k ==> CheckFirst(d, v, o, header, order[j]).None? && CheckFirst(d, v, o, body, order[j]).None?
            else if ScanSection(d, v, o, PlainFields(header), 0).Err? then SpelledFault(d, v, o, header, e)
            else SpelledFault(d, v, o, body, e)
  {
    hide CheckFirst;
    hide CheckFirsts;
    hide FirstFaults;
    hide ScanSection;
    hide SpelledFault;
    var header, body := m.header.members, m.body.members;
    if CheckFirsts(d, v, o, order, header, body).Some? {
      var k := CheckFirstsFaulty(d, v, o, order, header, body);
    } else if ScanSection(d, v, o, PlainFields(header), 0).Err? {
      SpelledFaulty(d, v, o, header);
    } else {
      SpelledFaulty(d, v, o, body);
    }
  }
}
