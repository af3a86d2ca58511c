/** What a well-formed repeating group is, said once about trees, and the flat validator against it:
    scanning a field list accepts exactly when the tree that `build_group` reads there conforms. */
module GroupConformance {
  import opened Decimal
  import opened FieldMaps
  import opened Dictionary
  import opened Grouping
  import opened FlatGroups

  function Tags(ms: seq<Member>): (ts: seq<Tag>)
    ensures |ts| == |ms| && forall i :: 0 <= i < |ms| ==> ts[i] == TagOf(ms[i])
  {
    if ms == [] then [] else [TagOf(ms[0])] + Tags(ms[1..])
  }

  /** The value is well formed for the field and among its enumerated values. */
  predicate Fits(v: Formats, def: FieldDef, value: seq<Byte>) {
    v.wellFormed(def, value) && v.allowed(def, value)
  }

  /** Where values are asked for there is one; where types are checked it fits the child dictionary's definition of
      the field, or where that has none the enclosing dictionary's. */
  ghost predicate ValidValue(d: Dict, v: Formats, o: Options, g: GroupDef, f: Field) {
    var inChild := g.child.Some? && f.tag in g.child.value.fields;
    && (o.validateFieldsHaveValues ==> f.value != [])
    && (o.checkFieldTypes && inChild ==> Fits(v, g.child.value.fields[f.tag], f.value))
    && (o.checkFieldTypes && !inChild && f.tag in d.fields ==> Fits(v, d.fields[f.tag], f.value))
  }

  /** What is wrong with a value: the first of no value, a malformed value and a value not enumerated. */
  ghost function ValueFault(d: Dict, v: Formats, o: Options, g: GroupDef, f: Field): (e: Rejection) {
    Session(if o.validateFieldsHaveValues && f.value == [] then TagSpecifiedWithoutValue
            else if Malformed(d, v, g, f) then IncorrectDataFormat
            else ValueIsIncorrect,
            f.tag)
  }

  /** The value check passes valid values and no others, and says what is wrong with those. */
  lemma ValueCheckIsValidity(d: Dict, v: Formats, o: Options, g: GroupDef, f: Field)
    ensures EntryFieldValue(d, v, o, g, f).None? <==> ValidValue(d, v, o, g, f)
    ensures EntryFieldValue(d, v, o, g, f).Some? ==> EntryFieldValue(d, v, o, g, f).value == ValueFault(d, v, o, g, f)
  {
  }

  ghost predicate Malformed(d: Dict, v: Formats, g: GroupDef, f: Field) {
    if g.child.Some? && f.tag in g.child.value.fields then !v.wellFormed(g.child.value.fields[f.tag], f.value)
    else f.tag in d.fields && !v.wellFormed(d.fields[f.tag], f.value)
  }

  /** The count is a number and is the number of entries, and every entry conforms. */
  ghost predicate ConformsGroup(d: Dict, v: Formats, o: Options, m: Member)
    decreases m, 0
  {
    && m.GroupMember? && m.countTag in d.groups
    && m.declared == Some(|m.entries|)
    && forall i :: 0 <= i < |m.entries| ==> ConformsEntry(d, v, o, d.groups[m.countTag], m.entries[i])
  }

  /** Delimiter first and nowhere else, then members only, in declared order and with the required ones
      present where the options ask for that. */
  ghost predicate ConformsEntry(d: Dict, v: Formats, o: Options, g: GroupDef, entry: FieldMap)
    decreases entry
  {
    var ms := entry.members;
    && |ms| > 0
    && ConformsDelimiter(d, v, o, g, ms[0])
    && (forall i :: 1 <= i < |ms| ==> ConformsMember(d, v, o, g, ms[i]))
    && (o.validateUnorderedGroupFields ==> InOrder(g, ms[1..]))
    && (o.checkRequiredFields ==> forall t :: t in g.required ==> t in Tags(ms))
  }

  ghost predicate ConformsDelimiter(d: Dict, v: Formats, o: Options, g: GroupDef, m: Member) {
    && m.FieldMember? && m.field.tag == g.delimiter
    && ValidValue(d, v, o, g, m.field)
  }

  ghost predicate ConformsMember(d: Dict, v: Formats, o: Options, g: GroupDef, m: Member)
    decreases m, 1
  {
    && TagOf(m) in g.members && TagOf(m) != g.delimiter
    && if TagOf(m) in d.groups then ConformsGroup(d, v, o, m)
       else m.FieldMember? && ValidValue(d, v, o, g, m.field)
  }

  ghost predicate InOrder(g: GroupDef, ms: seq<Member>) {
    forall i, j :: 0 <= i < j < |ms| && TagOf(ms[i]) in g.members && TagOf(ms[j]) in g.members ==>
      Index(g.members, TagOf(ms[i])) <= Index(g.members, TagOf(ms[j]))
  }

  /** The order check as the validators make it, one step at a time. */
  ghost predicate Ascending(g: GroupDef, lastIdx: nat, ms: seq<Member>)
    decreases ms
  {
    ms == [] ||
    if TagOf(ms[0]) !in g.members then Ascending(g, lastIdx, ms[1..])
    else lastIdx <= Index(g.members, TagOf(ms[0])) && Ascending(g, Index(g.members, TagOf(ms[0])), ms[1..])
  }

  lemma {:induction false} AscendingIsInOrder(g: GroupDef, lastIdx: nat, ms: seq<Member>)
    ensures Ascending(g, lastIdx, ms) <==>
            InOrder(g, ms) && forall i :: 0 <= i < |ms| && TagOf(ms[i]) in g.members ==> lastIdx <= Index(g.members, TagOf(ms[i]))
    decreases ms
  {
    if ms != [] {
      var idx := if TagOf(ms[0]) in g.members then Index(g.members, TagOf(ms[0])) else lastIdx;
      AscendingIsInOrder(g, idx, ms[1..]);
      assert forall i :: 0 <= i < |ms[1..]| ==> ms[1..][i] == ms[i + 1];
      assert forall i :: 1 <= i < |ms| ==> ms[i] == ms[1..][i - 1];
    }
  }

  ghost predicate ConformsMembers(d: Dict, v: Formats, o: Options, g: GroupDef, ms: seq<Member>) {
    forall i :: 0 <= i < |ms| ==> ConformsMember(d, v, o, g, ms[i])
  }

  ghost predicate ConformsEntries(d: Dict, v: Formats, o: Options, g: GroupDef, entries: seq<FieldMap>) {
    forall i :: 0 <= i < |entries| ==> ConformsEntry(d, v, o, g, entries[i])
  }

  lemma ConformsMembersCons(d: Dict, v: Formats, o: Options, g: GroupDef, m: Member, ms: seq<Member>)
    ensures ConformsMembers(d, v, o, g, [m] + ms) <==> ConformsMember(d, v, o, g, m) && ConformsMembers(d, v, o, g, ms)
  {
    var all := [m] + ms;
    assert all[0] == m && forall i :: 0 <= i < |ms| ==> all[i + 1] == ms[i];
    if ConformsMembers(d, v, o, g, all) {
      assert ConformsMember(d, v, o, g, all[0]);
      forall i | 0 <= i < |ms| ensures ConformsMember(d, v, o, g, ms[i]) { assert ConformsMember(d, v, o, g, all[i + 1]); }
    }
  }

  lemma ConformsEntriesCons(d: Dict, v: Formats, o: Options, g: GroupDef, e: FieldMap, es: seq<FieldMap>)
    ensures ConformsEntries(d, v, o, g, [e] + es) <==> ConformsEntry(d, v, o, g, e) && ConformsEntries(d, v, o, g, es)
  {
    var all := [e] + es;
    assert all[0] == e && forall i :: 0 <= i < |es| ==> all[i + 1] == es[i];
    if ConformsEntries(d, v, o, g, all) {
      assert ConformsEntry(d, v, o, g, all[0]);
      forall i | 0 <= i < |es| ensures ConformsEntry(d, v, o, g, es[i]) { assert ConformsEntry(d, v, o, g, all[i + 1]); }
    }
  }

  /** The entry read at a delimiter. */
  lemma EntryUnfold(d: Dict, v: Formats, o: Options, g: GroupDef, first: Field, ms: seq<Member>)
    requires first.tag == g.delimiter
    ensures ConformsEntry(d, v, o, g, FieldMap([FieldMember(first)] + ms)) <==>
            && ValidValue(d, v, o, g, first)
            && ConformsMembers(d, v, o, g, ms)
            && (o.validateUnorderedGroupFields ==> InOrder(g, ms))
            && (o.checkRequiredFields ==> FirstMissing(g.required, [g.delimiter] + Tags(ms)).None?)
  {
    var all := [FieldMember(first)] + ms;
    assert all[1..] == ms;
    assert Tags(all) == [g.delimiter] + Tags(ms);
    assert (forall i :: 1 <= i < |all| ==> ConformsMember(d, v, o, g, all[i])) <==> ConformsMembers(d, v, o, g, ms) by {
      assert forall i :: 0 <= i < |ms| ==> all[i + 1] == ms[i];
      if forall i :: 1 <= i < |all| ==> ConformsMember(d, v, o, g, all[i]) {
        forall i | 0 <= i < |ms| ensures ConformsMember(d, v, o, g, ms[i]) { assert ConformsMember(d, v, o, g, all[i + 1]); }
      }
    }
  }

  /** The flat validator accepts a group exactly when the tree read there conforms, and then it stops
      exactly where that tree's fields end. */
  lemma {:induction false} ScanGroupIsConformance(
    d: Dict, v: Formats, o: Options, body: seq<Field>, pos: nat, tag: Tag, budget: nat)
    requires pos < |body| && tag in d.groups && GroupAt(d.groups, body, pos, tag, budget).Built?
    ensures var b := GroupAt(d.groups, body, pos, tag, budget);
            && (ScanGroup(d, v, o, body, pos, tag).Ok? <==> ConformsGroup(d, v, o, b.value))
            && (ScanGroup(d, v, o, body, pos, tag).Ok? ==> ScanGroup(d, v, o, body, pos, tag).value == b.pos)
    decreases |body| - pos, 0
  {
    var count := AsInt(body[pos]);
    if count.Some? {
      ScanEntriesConform(d, v, o, body, pos + 1, tag, count.value, 0, budget);
    }
  }

  lemma {:induction false} ScanEntriesConform(
    d: Dict, v: Formats, o: Options, body: seq<Field>, pos: nat, tag: Tag, declared: int, found: nat, budget: nat)
    requires pos <= |body| && tag in d.groups && budget > 0
    requires EntriesAt(d.groups, body, pos, d.groups[tag], budget).Built?
    ensures var b := EntriesAt(d.groups, body, pos, d.groups[tag], budget);
            var r := ScanEntries(d, v, o, body, pos, tag, declared, found);
            && (r.Ok? <==> declared == found + |b.value| && ConformsEntries(d, v, o, d.groups[tag], b.value))
            && (r.Ok? ==> r.value == b.pos)
    decreases |body| - pos, 2
  {
    var g := d.groups[tag];
    if pos < |body| && body[pos].tag == g.delimiter {
      var b := MembersAt(d.groups, body, pos + 1, g, budget);
      ScanEntryConforms(d, v, o, body, pos, g, budget);
      ScanEntriesConform(d, v, o, body, b.pos, tag, declared, found + 1, budget);
      ConformsEntriesCons(d, v, o, g, FieldMap([FieldMember(body[pos])] + b.value),
                          EntriesAt(d.groups, body, b.pos, g, budget).value);
    }
  }

  lemma {:induction false} ScanEntryConforms(
    d: Dict, v: Formats, o: Options, body: seq<Field>, pos: nat, g: GroupDef, budget: nat)
    requires pos < |body| && body[pos].tag == g.delimiter && budget > 0
    requires MembersAt(d.groups, body, pos + 1, g, budget).Built?
    ensures var b := MembersAt(d.groups, body, pos + 1, g, budget);
            var r := ScanEntry(d, v, o, body, pos, g);
            && (r.Ok? <==> ConformsEntry(d, v, o, g, FieldMap([FieldMember(body[pos])] + b.value)))
            && (r.Ok? ==> r.value == b.pos)
    decreases |body| - pos, 1
  {
    hide ConformsEntry;
    hide CheckGroupFieldValue;
    hide ValidValue;
    ValueCheckIsValidity(d, v, o, g, body[pos]);
    var ms := MembersAt(d.groups, body, pos + 1, g, budget).value;
    ScanMembersConform(d, v, o, body, pos + 1, g, 0, [g.delimiter], budget);
    EntryUnfold(d, v, o, g, body[pos], ms);
    if ConformsMembers(d, v, o, g, ms) {
      AscendingIsInOrder(g, 0, ms);
    }
  }

  lemma {:induction false} ScanMembersConform(
    d: Dict, v: Formats, o: Options, body: seq<Field>, pos: nat, g: GroupDef, lastIdx: nat, seen: seq<Tag>, budget: nat)
    requires pos <= |body| && budget > 0
    requires MembersAt(d.groups, body, pos, g, budget).Built?
    ensures var b := MembersAt(d.groups, body, pos, g, budget);
            var r := ScanMembers(d, v, o, body, pos, g, lastIdx, seen);
            && (r.Ok? <==> ConformsMembers(d, v, o, g, b.value)
                           && (o.validateUnorderedGroupFields ==> Ascending(g, lastIdx, b.value)))
            && (r.Ok? ==> r.value == (b.pos, seen + Tags(b.value)))
    decreases |body| - pos, 2
  {
    hide ConformsMember;
    if pos < |body| && body[pos].tag != g.delimiter && body[pos].tag in g.members {
      var t := body[pos].tag;
      var one := MemberAt(d.groups, body, pos, budget - 1);
      var idx := Index(g.members, t);
      ScanMemberConforms(d, v, o, body, pos, g, budget);
      ScanMembersConform(d, v, o, body, one.pos, g, idx, seen + [t], budget);
      var rest := MembersAt(d.groups, body, one.pos, g, budget).value;
      var ms := [one.value] + rest;
      ConformsMembersCons(d, v, o, g, one.value, rest);
      assert ms[1..] == rest;
      assert seen + [t] + Tags(rest) == seen + Tags(ms);
    } else {
      assert seen + Tags([]) == seen;
    }
  }

  lemma {:induction false} ScanMemberConforms(
    d: Dict, v: Formats, o: Options, body: seq<Field>, pos: nat, g: GroupDef, budget: nat)
    requires pos < |body| && body[pos].tag != g.delimiter && body[pos].tag in g.members && budget > 0
    requires MemberAt(d.groups, body, pos, budget - 1).Built?
    ensures var b := MemberAt(d.groups, body, pos, budget - 1);
            var r := ScanMember(d, v, o, body, pos, g);
            && (r.Ok? <==> ConformsMember(d, v, o, g, b.value))
            && (r.Ok? ==> r.value == b.pos)
    decreases |body| - pos, 1
  {
    hide ValidValue;
    hide EntryFieldValue;
    if body[pos].tag in d.groups {
      ScanGroupIsConformance(d, v, o, body, pos, body[pos].tag, budget - 1);
    } else {
      ValueCheckIsValidity(d, v, o, g, body[pos]);
    }
  }

  /** Every group of a section conforms. */
  ghost predicate ConformsSection(d: Dict, v: Formats, o: Options, ms: seq<Member>) {
    forall i :: 0 <= i < |ms| && ms[i].GroupMember? ==> ConformsGroup(d, v, o, ms[i])
  }

  /** The flat validator accepts a section exactly when every group read in it conforms. */
  lemma {:induction false} ScanSectionIsConformance(
    d: Dict, v: Formats, o: Options, fields: seq<Field>, pos: nat, budget: nat)
    requires pos <= |fields| && SectionAt(d.groups, fields, pos, budget).Built?
    ensures ScanSection(d, v, o, fields, pos).Ok? <==>
            ConformsSection(d, v, o, SectionAt(d.groups, fields, pos, budget).value)
    decreases |fields| - pos
  {
    hide ConformsGroup;
    if pos < |fields| {
      var one := MemberAt(d.groups, fields, pos, budget);
      var rest := SectionAt(d.groups, fields, one.pos, budget).value;
      if fields[pos].tag in d.groups {
        ScanGroupIsConformance(d, v, o, fields, pos, fields[pos].tag, budget);
      }
      ScanSectionIsConformance(d, v, o, fields, one.pos, budget);
      ConformsSectionCons(d, v, o, one.value, rest);
    }
  }

  lemma ConformsSectionCons(d: Dict, v: Formats, o: Options, m: Member, ms: seq<Member>)
    ensures ConformsSection(d, v, o, [m] + ms) <==>
            (m.GroupMember? ==> ConformsGroup(d, v, o, m)) && ConformsSection(d, v, o, ms)
  {
    hide ConformsGroup;
    var all := [m] + ms;
    assert all[0] == m && forall i :: 0 <= i < |ms| ==> all[i + 1] == ms[i];
    if ConformsSection(d, v, o, all) {
      forall i | 0 <= i < |ms| && ms[i].GroupMember? ensures ConformsGroup(d, v, o, ms[i]) {
        assert all[i + 1].GroupMember?;
      }
    }
  }
}
