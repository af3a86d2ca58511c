/** The structured validator on every tree, said without its walk: which trees it accepts. */
module StructuredConformance {
  import opened Decimal
  import opened FieldMaps
  import opened Dictionary
  import opened FlatGroups
  import opened StructuredGroups
  import opened GroupConformance

  /** A declared count is the number of entries, and every entry is acceptable; groups the dictionary does not
      know are not looked at. */
  ghost predicate AcceptedGroup(d: Dict, v: Formats, o: Options, m: Member)
    requires m.GroupMember?
    decreases m, 0
  {
    m.countTag in d.groups ==>
      && (m.declared.Some? ==> m.declared.value == |m.entries|)
      && forall i :: 0 <= i < |m.entries| ==> AcceptedEntry(d, v, o, d.groups[m.countTag], m.entries[i])
  }

  /** Whatever is a member of the group is acceptable and in declared order, and the required ones are there. */
  ghost predicate AcceptedEntry(d: Dict, v: Formats, o: Options, g: GroupDef, entry: FieldMap)
    decreases entry
  {
    var ms := entry.members;
    && (forall i :: 0 <= i < |ms| && TagOf(ms[i]) in g.members ==> AcceptedMember(d, v, o, g, ms[i]))
    && (o.validateUnorderedGroupFields ==> InOrder(g, ms))
    && (o.checkRequiredFields ==> forall t :: t in g.required ==> Supplied(d, ms, t))
  }

  ghost predicate AcceptedMember(d: Dict, v: Formats, o: Options, g: GroupDef, m: Member)
    decreases m, 1
  {
    if m.GroupMember? then AcceptedGroup(d, v, o, m) else ValidValue(d, v, o, g, m.field)
  }

  /** A plain tag is supplied by any field that has it, a count tag by its first group, if that has entries. */
  ghost predicate Supplied(d: Dict, ms: seq<Member>, t: Tag) {
    if t in d.groups
    then exists i :: 0 <= i < |ms| && LeadsGroup(ms, i, t) && ms[i].entries != []
    else exists i :: 0 <= i < |ms| && ms[i].FieldMember? && ms[i].field.tag == t
  }

  ghost predicate LeadsGroup(ms: seq<Member>, i: nat, t: Tag)
    requires i < |ms|
  {
    && ms[i].GroupMember? && ms[i].countTag == t
    && forall j :: 0 <= j < i && ms[j].GroupMember? ==> ms[j].countTag != t
  }

  lemma {:induction false} GetFieldFinds(ms: seq<Member>, t: Tag)
    ensures GetField(ms, t).Some? <==> exists i :: 0 <= i < |ms| && ms[i].FieldMember? && ms[i].field.tag == t
  {
    if ms != [] {
      GetFieldFinds(ms[1..], t);
      assert forall i :: 0 <= i < |ms[1..]| ==> ms[1..][i] == ms[i + 1];
      assert forall i :: 1 <= i < |ms| ==> ms[i] == ms[1..][i - 1];
    }
  }

  lemma {:induction false} GetGroupFinds(ms: seq<Member>, t: Tag)
    ensures GetGroup(ms, t).None? ==> forall i :: 0 <= i < |ms| && ms[i].GroupMember? ==> ms[i].countTag != t
    ensures GetGroup(ms, t).Some? ==> exists i :: 0 <= i < |ms| && LeadsGroup(ms, i, t) && ms[i].entries == GetGroup(ms, t).value
  {
    if ms != [] {
      var rest := ms[1..];
      GetGroupFinds(rest, t);
      assert forall i :: 1 <= i < |ms| ==> ms[i] == rest[i - 1];
      if ms[0].GroupMember? && ms[0].countTag == t {
        assert LeadsGroup(ms, 0, t);
      } else if GetGroup(rest, t).Some? {
        var i :| 0 <= i < |rest| && LeadsGroup(rest, i, t) && rest[i].entries == GetGroup(rest, t).value;
        assert LeadsGroup(ms, i + 1, t) && ms[i + 1] == rest[i];
      }
    }
  }

  lemma PresentIsSupplied(d: Dict, ms: seq<Member>, t: Tag)
    ensures PresentInEntry(d, ms, t) <==> Supplied(d, ms, t)
  {
    hide GetField;
    hide GetGroup;
    GetFieldFinds(ms, t);
    GetGroupFinds(ms, t);
  }

  lemma {:induction false} CheckMembersAccept(
    d: Dict, v: Formats, o: Options, g: GroupDef, ms: seq<Member>, lastIdx: nat, next: Option<Tag>)
    ensures CheckMembers(d, v, o, g, ms, lastIdx, next).None? <==>
            && (forall i :: 0 <= i < |ms| && TagOf(ms[i]) in g.members ==> AcceptedMember(d, v, o, g, ms[i]))
            && (o.validateUnorderedGroupFields ==> Ascending(g, lastIdx, ms))
    decreases ms, 1
  {
    hide AcceptedMember;
    hide CheckMember;
    if ms != [] {
      var rest := ms[1..];
      if TagOf(ms[0]) in g.members {
        CheckMemberAccepts(d, v, o, g, ms[0], Following(ms, next));
        CheckMembersAccept(d, v, o, g, rest, Index(g.members, TagOf(ms[0])), next);
      } else {
        CheckMembersAccept(d, v, o, g, rest, lastIdx, next);
      }
      assert forall i :: 0 <= i < |rest| ==> rest[i] == ms[i + 1];
      assert forall i :: 1 <= i < |ms| ==> ms[i] == rest[i - 1];
    }
  }

  lemma {:induction false} CheckMemberAccepts(d: Dict, v: Formats, o: Options, g: GroupDef, m: Member, next: Option<Tag>)
    ensures CheckMember(d, v, o, g, m, next).None? <==> AcceptedMember(d, v, o, g, m)
    decreases m, 1
  {
    hide EntryFieldValue;
    hide ValidValue;
    match m
    case GroupMember(_, _, _) => CheckGroupAccepts(d, v, o, m, next);
    case FieldMember(f) => ValueCheckIsValidity(d, v, o, g, f);
  }

  lemma {:induction false} CheckEntryAccepts(d: Dict, v: Formats, o: Options, g: GroupDef, entry: FieldMap, next: Option<Tag>)
    ensures CheckEntry(d, v, o, g, entry, next).None? <==> AcceptedEntry(d, v, o, g, entry)
    decreases entry, 1
  {
    hide CheckMembers;
    hide AcceptedMember;
    hide Ascending;
    hide InOrder;
    hide PresentInEntry;
    hide Supplied;
    CheckMembersAccept(d, v, o, g, entry.members, 0, next);
    AscendingIsInOrder(g, 0, entry.members);
    forall t | t in g.required ensures PresentInEntry(d, entry.members, t) <==> Supplied(d, entry.members, t) {
      PresentIsSupplied(d, entry.members, t);
    }
  }

  lemma {:induction false} CheckEntriesAccept(
    d: Dict, v: Formats, o: Options, g: GroupDef, entries: seq<FieldMap>, next: Option<Tag>)
    ensures CheckEntries(d, v, o, g, entries, next).None? <==>
            forall i :: 0 <= i < |entries| ==> AcceptedEntry(d, v, o, g, entries[i])
    decreases entries, 1
  {
    hide CheckEntry;
    hide AcceptedEntry;
    if entries != [] {
      var rest := entries[1..];
      CheckEntryAccepts(d, v, o, g, entries[0], next);
      CheckEntriesAccept(d, v, o, g, rest, next);
      assert forall i :: 0 <= i < |rest| ==> rest[i] == entries[i + 1];
      assert forall i :: 1 <= i < |entries| ==> entries[i] == rest[i - 1];
    }
  }

  /** The structured validator accepts exactly the acceptable groups, whatever follows them. */
  lemma {:induction false} CheckGroupAccepts(d: Dict, v: Formats, o: Options, m: Member, next: Option<Tag>)
    requires m.GroupMember?
    ensures CheckGroup(d, v, o, m.entries, m.declared, next, m.countTag).None? <==> AcceptedGroup(d, v, o, m)
    decreases m, 0
  {
    hide AcceptedEntry;
    if m.countTag in d.groups {
      CheckEntriesAccept(d, v, o, d.groups[m.countTag], m.entries, next);
    }
  }
}
