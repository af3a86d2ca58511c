/** The two group validators against each other, over every dictionary and every field list: what the flat one
    accepts on a list and what the structured one accepts on the tree read from that list. Each has demands the
    other does not make, and their verdicts differ exactly where one accepts what fails the other's demands. */
module GroupAgreement {
  import opened Decimal
  import opened FieldMaps
  import opened Dictionary
  import opened Grouping
  import opened GroupingRoundTrip
  import opened FlatGroups
  import opened StructuredGroups
  import opened GroupConformance

  // ----- what the structured validator alone demands

  /** No required nested group is without entries or stands in the delimiter's place, and the order check
      counts the delimiter in: no member is declared before it. */
  ghost predicate EntryDemands(d: Dict, o: Options, g: GroupDef, ms: seq<Member>) {
    && (o.checkRequiredFields ==>
          forall t :: t in g.required && t in d.groups ==> t != g.delimiter && GetGroup(ms, t) != Some([]))
    && (o.validateUnorderedGroupFields && g.delimiter in g.members ==>
          forall i :: 1 <= i < |ms| && TagOf(ms[i]) in g.members ==>
            Index(g.members, g.delimiter) <= Index(g.members, TagOf(ms[i])))
  }

  ghost predicate DemandsMember(d: Dict, o: Options, m: Member)
    decreases m, 0
  {
    match m
    case FieldMember(_) => true
    case GroupMember(ct, entries, _) => ct in d.groups ==> DemandsEntries(d, o, d.groups[ct], entries)
  }

  ghost predicate DemandsEntries(d: Dict, o: Options, g: GroupDef, entries: seq<FieldMap>)
    decreases entries, 0
  {
    entries != [] ==> DemandsEntry(d, o, g, entries[0]) && DemandsEntries(d, o, g, entries[1..])
  }

  ghost predicate DemandsEntry(d: Dict, o: Options, g: GroupDef, entry: FieldMap)
    decreases entry, 0
  {
    EntryDemands(d, o, g, entry.members) && DemandsMembers(d, o, entry.members)
  }

  ghost predicate DemandsMembers(d: Dict, o: Options, ms: seq<Member>)
    decreases ms, 0
  {
    ms != [] ==> DemandsMember(d, o, ms[0]) && DemandsMembers(d, o, ms[1..])
  }

  // ----- what the flat validator alone demands, besides a count that is a number

  /** A delimiter that is no member of its group has a valid value. */
  ghost predicate DelimiterValued(d: Dict, v: Formats, o: Options, g: GroupDef, ms: seq<Member>) {
    g.delimiter !in g.members && ms != [] && ms[0].FieldMember? ==> ValidValue(d, v, o, g, ms[0].field)
  }

  ghost predicate ValuedMember(d: Dict, v: Formats, o: Options, m: Member)
    decreases m, 0
  {
    match m
    case FieldMember(_) => true
    case GroupMember(ct, entries, _) => ct in d.groups ==> ValuedEntries(d, v, o, d.groups[ct], entries)
  }

  ghost predicate ValuedEntries(d: Dict, v: Formats, o: Options, g: GroupDef, entries: seq<FieldMap>)
    decreases entries, 0
  {
    entries != [] ==> ValuedEntry(d, v, o, g, entries[0]) && ValuedEntries(d, v, o, g, entries[1..])
  }

  ghost predicate ValuedEntry(d: Dict, v: Formats, o: Options, g: GroupDef, entry: FieldMap)
    decreases entry, 0
  {
    DelimiterValued(d, v, o, g, entry.members) && ValuedMembers(d, v, o, entry.members)
  }

  ghost predicate ValuedMembers(d: Dict, v: Formats, o: Options, ms: seq<Member>)
    decreases ms, 0
  {
    ms != [] ==> ValuedMember(d, v, o, ms[0]) && ValuedMembers(d, v, o, ms[1..])
  }

  // ----- one group

  /** The structured validator accepts a tree that meets the flat one's demands exactly when the tree conforms
      and meets the structured one's. */
  lemma {:induction false} CheckMemberIsConformance(
    d: Dict, v: Formats, o: Options, g: GroupDef, m: Member, next: Option<Tag>, after: Option<Tag>, budget: nat)
    requires FitMember(d.groups, m, after, budget)
    requires TagOf(m) in g.members && TagOf(m) != g.delimiter
    ensures CheckMember(d, v, o, g, m, next).None? && CountedMember(m) && ValuedMember(d, v, o, m) <==>
            ConformsMember(d, v, o, g, m) && DemandsMember(d, o, m)
    decreases m, 2
  {
    hide ValidValue;
    hide EntryFieldValue;
    if m.GroupMember? {
      CheckGroupIsConformance(d, v, o, m, next, after, budget);
    } else {
      ValueCheckIsValidity(d, v, o, g, m.field);
    }
  }

  lemma {:induction false} CheckGroupIsConformance(
    d: Dict, v: Formats, o: Options, m: Member, next: Option<Tag>, after: Option<Tag>, budget: nat)
    requires m.GroupMember? && FitMember(d.groups, m, after, budget)
    ensures CheckGroup(d, v, o, m.entries, m.declared, next, m.countTag).None? && CountedMember(m) && ValuedMember(d, v, o, m) <==>
            ConformsGroup(d, v, o, m) && DemandsMember(d, o, m)
    decreases m, 1
  {
    hide ConformsEntry;
    hide DemandsEntry;
    var g := d.groups[m.countTag];
    CheckEntriesConform(d, v, o, g, m.entries, next, after, budget);
    assert ConformsGroup(d, v, o, m) <==> m.declared == Some(|m.entries|) && ConformsEntries(d, v, o, g, m.entries);
  }

  lemma {:induction false} CheckEntriesConform(
    d: Dict, v: Formats, o: Options, g: GroupDef, entries: seq<FieldMap>, next: Option<Tag>, after: Option<Tag>, budget: nat)
    requires budget > 0 && FitEntries(d.groups, g, entries, after, budget)
    ensures CheckEntries(d, v, o, g, entries, next).None? && CountedEntries(entries) && ValuedEntries(d, v, o, g, entries) <==>
            ConformsEntries(d, v, o, g, entries) && DemandsEntries(d, o, g, entries)
    decreases entries, 1
  {
    hide ConformsEntry;
    hide FitEntry;
    hide CheckEntry;
    hide DemandsEntry;
    hide ValuedEntry;
    if entries != [] {
      var here := if |entries| > 1 then Some(g.delimiter) else after;
      CheckEntryConforms(d, v, o, g, entries[0], next, here, budget);
      CheckEntriesConform(d, v, o, g, entries[1..], next, after, budget);
      ConformsEntriesCons(d, v, o, g, entries[0], entries[1..]);
      assert [entries[0]] + entries[1..] == entries;
    }
  }

  /** The structured walk over an entry, split at its delimiter: a delimiter among the members has its value
      checked and sets the index the others may not fall below; another one is passed over. */
  lemma CheckFromDelimiter(d: Dict, v: Formats, o: Options, g: GroupDef, ms: seq<Member>, next: Option<Tag>)
    requires ms != [] && ms[0].FieldMember? && ms[0].field.tag == g.delimiter
    ensures CheckMembers(d, v, o, g, ms, 0, next).None? <==>
            if g.delimiter in g.members
            then ValidValue(d, v, o, g, ms[0].field)
                 && CheckMembers(d, v, o, g, ms[1..], Index(g.members, g.delimiter), next).None?
            else CheckMembers(d, v, o, g, ms[1..], 0, next).None?
  {
    hide EntryFieldValue;
    hide ValidValue;
    ValueCheckIsValidity(d, v, o, g, ms[0].field);
  }

  lemma {:induction false} CheckEntryConforms(
    d: Dict, v: Formats, o: Options, g: GroupDef, entry: FieldMap, next: Option<Tag>, after: Option<Tag>, budget: nat)
    requires budget > 0 && FitEntry(d.groups, g, entry, after, budget)
    ensures CheckEntry(d, v, o, g, entry, next).None? && CountedMembers(entry.members) && ValuedEntry(d, v, o, g, entry) <==>
            ConformsEntry(d, v, o, g, entry) && DemandsEntry(d, o, g, entry)
    decreases entry, 1
  {
    hide ConformsEntry;
    hide FitMembers;
    hide ValidValue;
    hide EntryDemands;
    hide CheckMembers;
    var first, ms := entry.members[0], entry.members[1..];
    assert entry.members == [first] + ms;
    assert entry == FieldMap([FieldMember(first.field)] + ms);
    EntryUnfold(d, v, o, g, first.field, ms);
    var start := if g.delimiter in g.members then Index(g.members, g.delimiter) else 0;
    CheckFromDelimiter(d, v, o, g, entry.members, next);
    CheckMembersConform(d, v, o, g, ms, start, next, after, budget);
    EntrySplit(d, o, g, entry, after, budget);
    assert CountedMembers(entry.members) <==> CountedMembers(ms);
    assert DemandsMembers(d, o, entry.members) <==> DemandsMembers(d, o, ms);
    assert ValuedMembers(d, v, o, entry.members) <==> ValuedMembers(d, v, o, ms);
  }

  /** In a fit entry the structured checks of presence and order are the flat ones and the extra demands. */
  lemma EntrySplit(d: Dict, o: Options, g: GroupDef, entry: FieldMap, after: Option<Tag>, budget: nat)
    requires budget > 0 && FitEntry(d.groups, g, entry, after, budget)
    ensures var ms := entry.members[1..];
            var start := if g.delimiter in g.members then Index(g.members, g.delimiter) else 0;
            && (o.checkRequiredFields ==> FirstAbsent(d, g.required, entry.members).None?)
            && (o.validateUnorderedGroupFields ==> Ascending(g, start, ms)) <==>
            && (o.checkRequiredFields ==> FirstMissing(g.required, [g.delimiter] + Tags(ms)).None?)
            && (o.validateUnorderedGroupFields ==> InOrder(g, ms))
            && EntryDemands(d, o, g, entry.members)
  {
    hide FitMembers;
    hide Ascending;
    hide InOrder;
    var all, ms := entry.members, entry.members[1..];
    var start := if g.delimiter in g.members then Index(g.members, g.delimiter) else 0;
    RequiredInEntry(d, g, entry, after, budget);
    FitMembersTags(d.groups, g, ms, after, budget);
    AscendingIsInOrder(g, start, ms);
    LedByDelimiter(g, all);
  }

  lemma LedByDelimiter(g: GroupDef, all: seq<Member>)
    requires all != [] && forall i :: 0 <= i < |all[1..]| ==> TagOf(all[1..][i]) in g.members
    ensures var ms := all[1..];
            var start := if g.delimiter in g.members then Index(g.members, g.delimiter) else 0;
            (forall i :: 0 <= i < |ms| ==> start <= Index(g.members, TagOf(ms[i]))) <==>
            (g.delimiter in g.members ==> forall i :: 1 <= i < |all| && TagOf(all[i]) in g.members ==>
               Index(g.members, g.delimiter) <= Index(g.members, TagOf(all[i])))
  {
    var ms := all[1..];
    assert forall i :: 0 <= i < |ms| ==> ms[i] == all[i + 1];
    if g.delimiter in g.members {
      var start := Index(g.members, g.delimiter);
      if forall i :: 0 <= i < |ms| ==> start <= Index(g.members, TagOf(ms[i])) {
        forall i | 1 <= i < |all| && TagOf(all[i]) in g.members ensures start <= Index(g.members, TagOf(all[i])) {
          assert all[i] == ms[i - 1];
        }
      }
    }
  }

  lemma {:induction false} FitMembersTags(groups: Groups, g: GroupDef, ms: seq<Member>, after: Option<Tag>, budget: nat)
    requires budget > 0 && FitMembers(groups, g, ms, after, budget)
    ensures forall i :: 0 <= i < |ms| ==> TagOf(ms[i]) in g.members && TagOf(ms[i]) != g.delimiter
    decreases ms
  {
    if ms != [] { FitMembersTags(groups, g, ms[1..], after, budget); }
  }

  lemma {:induction false} CheckMembersConform(
    d: Dict, v: Formats, o: Options, g: GroupDef, ms: seq<Member>, lastIdx: nat, next: Option<Tag>, after: Option<Tag>, budget: nat)
    requires budget > 0 && FitMembers(d.groups, g, ms, after, budget)
    ensures CheckMembers(d, v, o, g, ms, lastIdx, next).None? && CountedMembers(ms) && ValuedMembers(d, v, o, ms) <==>
            && ConformsMembers(d, v, o, g, ms)
            && (o.validateUnorderedGroupFields ==> Ascending(g, lastIdx, ms))
            && DemandsMembers(d, o, ms)
    decreases ms, 1
  {
    hide ConformsMember;
    hide FitMember;
    hide CheckMember;
    hide DemandsMember;
    hide ValuedMember;
    hide CountedMember;
    if ms != [] {
      CheckMemberIsConformance(d, v, o, g, ms[0], Following(ms, next), Following(ms, after), budget - 1);
      CheckMembersConform(d, v, o, g, ms[1..], Index(g.members, TagOf(ms[0])), next, after, budget);
      ConformsMembersCons(d, v, o, g, ms[0], ms[1..]);
      assert [ms[0]] + ms[1..] == ms;
    }
  }

  /** In a fit entry plain tags are plain fields and count tags are groups, the delimiter always being a field,
      so both validators' notions of presence agree up to empty groups and a count tag for a delimiter. */
  lemma RequiredInEntry(d: Dict, g: GroupDef, entry: FieldMap, after: Option<Tag>, budget: nat)
    requires budget > 0 && FitEntry(d.groups, g, entry, after, budget)
    ensures var ms := entry.members;
            var seen := [g.delimiter] + Tags(ms[1..]);
            FirstAbsent(d, g.required, ms).None? <==>
            && FirstMissing(g.required, seen).None?
            && forall t :: t in g.required && t in d.groups ==> t != g.delimiter && GetGroup(ms, t) != Some([])
  {
    var ms := entry.members;
    var seen := [g.delimiter] + Tags(ms[1..]);
    FitMembersTags(d.groups, g, ms[1..], after, budget);
    forall t | t in g.required
      ensures PresentInEntry(d, ms, t) <==>
              t in seen && (t in d.groups ==> t != g.delimiter && GetGroup(ms, t) != Some([]))
    {
      PresenceByTag(d, g, ms[1..], t, after, budget);
      assert t in seen <==> t == g.delimiter || t in Tags(ms[1..]);
    }
  }

  lemma {:induction false} PresenceByTag(d: Dict, g: GroupDef, ms: seq<Member>, t: Tag, after: Option<Tag>, budget: nat)
    requires budget > 0 && FitMembers(d.groups, g, ms, after, budget)
    ensures t in Tags(ms) <==> if t in d.groups then GetGroup(ms, t).Some? else GetField(ms, t).Some?
    decreases ms
  {
    if ms != [] {
      PresenceByTag(d, g, ms[1..], t, after, budget);
      assert t in Tags(ms) <==> t == TagOf(ms[0]) || t in Tags(ms[1..]);
      assert ms[0].GroupMember? <==> TagOf(ms[0]) in d.groups;
    }
  }

  // ----- acceptance meets a validator's own demands

  /** What the structured validator accepts meets its own demands, unreadable counts or not. */
  lemma {:induction false} CheckGroupDemands(
    d: Dict, v: Formats, o: Options, m: Member, next: Option<Tag>, after: Option<Tag>, budget: nat)
    requires m.GroupMember? && FitMember(d.groups, m, after, budget)
    requires CheckGroup(d, v, o, m.entries, m.declared, next, m.countTag).None?
    ensures DemandsMember(d, o, m)
    decreases m, 1
  {
    hide DemandsEntry;
    CheckEntriesDemand(d, v, o, d.groups[m.countTag], m.entries, next, after, budget);
  }

  lemma {:induction false} CheckEntriesDemand(
    d: Dict, v: Formats, o: Options, g: GroupDef, entries: seq<FieldMap>, next: Option<Tag>, after: Option<Tag>, budget: nat)
    requires budget > 0 && FitEntries(d.groups, g, entries, after, budget) && CheckEntries(d, v, o, g, entries, next).None?
    ensures DemandsEntries(d, o, g, entries)
    decreases entries, 1
  {
    hide FitEntry;
    hide CheckEntry;
    hide DemandsEntry;
    if entries != [] {
      var here := if |entries| > 1 then Some(g.delimiter) else after;
      CheckEntryDemands(d, v, o, g, entries[0], next, here, budget);
      CheckEntriesDemand(d, v, o, g, entries[1..], next, after, budget);
    }
  }

  lemma {:induction false} CheckEntryDemands(
    d: Dict, v: Formats, o: Options, g: GroupDef, entry: FieldMap, next: Option<Tag>, after: Option<Tag>, budget: nat)
    requires budget > 0 && FitEntry(d.groups, g, entry, after, budget) && CheckEntry(d, v, o, g, entry, next).None?
    ensures DemandsEntry(d, o, g, entry)
    decreases entry, 1
  {
    hide FitMembers;
    hide ValidValue;
    hide EntryDemands;
    hide CheckMembers;
    var ms := entry.members[1..];
    var start := if g.delimiter in g.members then Index(g.members, g.delimiter) else 0;
    CheckFromDelimiter(d, v, o, g, entry.members, next);
    CheckMembersDemand(d, v, o, g, ms, start, next, after, budget);
    EntrySplit(d, o, g, entry, after, budget);
    assert DemandsMembers(d, o, entry.members) <==> DemandsMembers(d, o, ms);
  }

  lemma {:induction false} CheckMembersDemand(
    d: Dict, v: Formats, o: Options, g: GroupDef, ms: seq<Member>, lastIdx: nat, next: Option<Tag>, after: Option<Tag>, budget: nat)
    requires budget > 0 && FitMembers(d.groups, g, ms, after, budget) && CheckMembers(d, v, o, g, ms, lastIdx, next).None?
    ensures o.validateUnorderedGroupFields ==> Ascending(g, lastIdx, ms)
    ensures DemandsMembers(d, o, ms)
    decreases ms, 1
  {
    hide FitMember;
    hide CheckGroup;
    hide DemandsMember;
    if ms != [] {
      if ms[0].GroupMember? {
        CheckGroupDemands(d, v, o, ms[0], Following(ms, next), Following(ms, after), budget - 1);
      } else {
        assert DemandsMember(d, o, ms[0]) by { FieldsDemandNothing(d, v, o, ms[0]); }
      }
      CheckMembersDemand(d, v, o, g, ms[1..], Index(g.members, TagOf(ms[0])), next, after, budget);
    }
  }

  lemma FieldsDemandNothing(d: Dict, v: Formats, o: Options, m: Member)
    requires m.FieldMember?
    ensures DemandsMember(d, o, m) && CountedMember(m) && ValuedMember(d, v, o, m)
  {
  }

  /** What conforms has readable counts and valid delimiters. */
  lemma {:induction false} ConformsMeets(d: Dict, v: Formats, o: Options, m: Member)
    requires ConformsGroup(d, v, o, m)
    ensures CountedMember(m) && ValuedMember(d, v, o, m)
    decreases m, 1
  {
    ConformsEntriesMeet(d, v, o, d.groups[m.countTag], m.entries);
  }

  lemma {:induction false} ConformsEntriesMeet(d: Dict, v: Formats, o: Options, g: GroupDef, entries: seq<FieldMap>)
    requires ConformsEntries(d, v, o, g, entries)
    ensures CountedEntries(entries) && ValuedEntries(d, v, o, g, entries)
    decreases entries, 0
  {
    hide InOrder;
    if entries != [] {
      var entry := entries[0];
      assert ConformsEntry(d, v, o, g, entry);
      forall i | 0 <= i < |entry.members| && entry.members[i].GroupMember? ensures ConformsGroup(d, v, o, entry.members[i]) {
        assert i > 0 && ConformsMember(d, v, o, g, entry.members[i]);
      }
      ConformingMembersMeet(d, v, o, entry.members);
      ConformsEntriesMeet(d, v, o, g, entries[1..]);
    }
  }

  lemma {:induction false} ConformingMembersMeet(d: Dict, v: Formats, o: Options, ms: seq<Member>)
    requires forall i :: 0 <= i < |ms| && ms[i].GroupMember? ==> ConformsGroup(d, v, o, ms[i])
    ensures CountedMembers(ms) && ValuedMembers(d, v, o, ms)
    decreases ms, 0
  {
    hide ConformsGroup;
    if ms != [] {
      if ms[0].GroupMember? {
        ConformsMeets(d, v, o, ms[0]);
      }
      ConformingMembersMeet(d, v, o, ms[1..]);
    }
  }

  /** At every group count field of every field list, over every dictionary: each validator's acceptance meets its
      own demands, and the verdicts differ exactly where one accepts what fails the other's own demands. */
  lemma GroupVerdictsAgree(
    d: Dict, v: Formats, o: Options, toks: seq<Field>, pos: nat, tag: Tag, next: Option<Tag>, budget: nat)
    requires pos < |toks| <= I64_MAX && tag in d.groups && toks[pos].tag == tag
    requires GroupAt(d.groups, toks, pos, tag, budget).Built?
    ensures var m := GroupAt(d.groups, toks, pos, tag, budget).value;
            var flat := ScanGroup(d, v, o, toks, pos, tag).Ok?;
            var structured := CheckGroup(d, v, o, m.entries, m.declared, next, tag).None?;
            && (flat && DemandsMember(d, o, m) <==> structured && CountedMember(m) && ValuedMember(d, v, o, m))
            && (structured ==> DemandsMember(d, o, m))
            && (flat ==> CountedMember(m) && ValuedMember(d, v, o, m))
            && (flat != structured <==>
                || (flat && !DemandsMember(d, o, m))
                || (structured && !(CountedMember(m) && ValuedMember(d, v, o, m))))
  {
    hide ConformsGroup;
    hide CheckGroup;
    hide DemandsMember;
    hide CountedMember;
    hide ValuedMember;
    var b := GroupAt(d.groups, toks, pos, tag, budget);
    assert MemberAt(d.groups, toks, pos, budget) == b;
    MemberAtFit(d.groups, toks, pos, budget);
    ScanGroupIsConformance(d, v, o, toks, pos, tag, budget);
    CheckGroupIsConformance(d, v, o, b.value, next, NextTag(toks, b.pos), budget);
    if CheckGroup(d, v, o, b.value.entries, b.value.declared, next, tag).None? {
      CheckGroupDemands(d, v, o, b.value, next, NextTag(toks, b.pos), budget);
    }
    if ConformsGroup(d, v, o, b.value) {
      ConformsMeets(d, v, o, b.value);
    }
  }

  // ----- one section

  /** Every group of a section passes the structured check. */
  ghost predicate CheckedSection(d: Dict, v: Formats, o: Options, ms: seq<Member>) {
    forall i :: 0 <= i < |ms| && ms[i].GroupMember? ==>
      CheckGroup(d, v, o, ms[i].entries, ms[i].declared, Following(ms[i..], None), ms[i].countTag).None?
  }

  lemma {:induction false} CheckedIsConformance(d: Dict, v: Formats, o: Options, ms: seq<Member>, budget: nat)
    requires FitSection(d.groups, ms, budget)
    ensures CheckedSection(d, v, o, ms) && CountedMembers(ms) && ValuedMembers(d, v, o, ms) <==>
            ConformsSection(d, v, o, ms) && DemandsMembers(d, o, ms)
    decreases ms
  {
    hide ConformsGroup;
    hide CheckGroup;
    hide FitMember;
    hide CheckedSection;
    hide ConformsSection;
    if ms == [] {
      assert CheckedSection(d, v, o, ms) && ConformsSection(d, v, o, ms) by { EmptySection(d, v, o); }
    } else {
      var m, rest := ms[0], ms[1..];
      if m.GroupMember? {
        CheckGroupIsConformance(d, v, o, m, Following(ms, None), Following(ms, None), budget);
      } else {
        assert CountedMember(m) && ValuedMember(d, v, o, m) && DemandsMember(d, o, m);
      }
      CheckedIsConformance(d, v, o, rest, budget);
      ConformsSectionCons(d, v, o, m, rest);
      assert [m] + rest == ms;
      CheckedSectionCons(d, v, o, ms);
    }
  }

  lemma EmptySection(d: Dict, v: Formats, o: Options)
    ensures CheckedSection(d, v, o, []) && ConformsSection(d, v, o, [])
  {
  }

  lemma CheckedSectionCons(d: Dict, v: Formats, o: Options, ms: seq<Member>)
    requires ms != []
    ensures CheckedSection(d, v, o, ms) <==>
            && (ms[0].GroupMember? ==>
                  CheckGroup(d, v, o, ms[0].entries, ms[0].declared, Following(ms, None), ms[0].countTag).None?)
            && CheckedSection(d, v, o, ms[1..])
  {
    hide CheckGroup;
    var rest := ms[1..];
    assert ms[0..] == ms;
    assert forall i :: 0 <= i < |rest| ==> rest[i] == ms[i + 1] && rest[i..] == ms[i + 1..];
    if CheckedSection(d, v, o, ms) {
      forall i | 0 <= i < |rest| && rest[i].GroupMember?
        ensures CheckGroup(d, v, o, rest[i].entries, rest[i].declared, Following(rest[i..], None), rest[i].countTag).None?
      {
        assert ms[i + 1].GroupMember?;
      }
    }
    if CheckedSection(d, v, o, rest)
       && (ms[0].GroupMember? ==>
             CheckGroup(d, v, o, ms[0].entries, ms[0].declared, Following(ms, None), ms[0].countTag).None?) {
      forall i | 0 <= i < |ms| && ms[i].GroupMember?
        ensures CheckGroup(d, v, o, ms[i].entries, ms[i].declared, Following(ms[i..], None), ms[i].countTag).None?
      {
        if i > 0 { assert rest[i - 1].GroupMember?; }
      }
    }
  }

  lemma {:induction false} CheckedDemands(d: Dict, v: Formats, o: Options, ms: seq<Member>, budget: nat)
    requires FitSection(d.groups, ms, budget) && CheckedSection(d, v, o, ms)
    ensures DemandsMembers(d, o, ms)
    decreases ms
  {
    hide CheckGroup;
    hide FitMember;
    hide CheckedSection;
    hide DemandsMember;
    if ms != [] {
      CheckedSectionCons(d, v, o, ms);
      if ms[0].GroupMember? {
        CheckGroupDemands(d, v, o, ms[0], Following(ms, None), Following(ms, None), budget);
      } else {
        FieldsDemandNothing(d, v, o, ms[0]);
      }
      CheckedDemands(d, v, o, ms[1..], budget);
    }
  }

  /** The same law for a whole section, every group of it checked. */
  lemma SectionVerdictsAgree(d: Dict, v: Formats, o: Options, toks: seq<Field>, budget: nat)
    requires |toks| <= I64_MAX && SectionAt(d.groups, toks, 0, budget).Built?
    ensures var ms := SectionAt(d.groups, toks, 0, budget).value;
            var flat, structured := ScanSection(d, v, o, toks, 0).Ok?, CheckedSection(d, v, o, ms);
            && (flat && DemandsMembers(d, o, ms) <==> structured && CountedMembers(ms) && ValuedMembers(d, v, o, ms))
            && (structured ==> DemandsMembers(d, o, ms))
            && (flat ==> CountedMembers(ms) && ValuedMembers(d, v, o, ms))
            && (flat != structured <==>
                || (flat && !DemandsMembers(d, o, ms))
                || (structured && !(CountedMembers(ms) && ValuedMembers(d, v, o, ms))))
  {
    hide ConformsGroup;
    hide CheckedSection;
    hide DemandsMembers;
    hide CountedMembers;
    hide ValuedMembers;
    hide ScanSection;
    var ms := SectionAt(d.groups, toks, 0, budget).value;
    SectionAtFit(d.groups, toks, 0, budget);
    ScanSectionIsConformance(d, v, o, toks, 0, budget);
    CheckedIsConformance(d, v, o, ms, budget);
    if CheckedSection(d, v, o, ms) {
      CheckedDemands(d, v, o, ms, budget);
    }
    if ConformsSection(d, v, o, ms) {
      ConformingMembersMeet(d, v, o, ms);
    }
  }

  // ----- whole messages

  function AsMembers(fs: seq<Field>): (ms: seq<Member>)
    ensures |ms| == |fs| && forall i :: 0 <= i < |fs| ==> ms[i] == FieldMember(fs[i])
  {
    if fs == [] then [] else [FieldMember(fs[0])] + AsMembers(fs[1..])
  }

  lemma {:induction false} PlainFieldsOfFlat(fs: seq<Field>)
    ensures PlainFields(AsMembers(fs)) == fs
  {
    if fs != [] {
      PlainFieldsOfFlat(fs[1..]);
      assert AsMembers(fs)[1..] == AsMembers(fs[1..]);
      assert [fs[0]] + fs[1..] == fs;
    }
  }

  /** In a structured section no plain field is a group count. */
  lemma {:induction false} PlainFieldsOfStructured(groups: Groups, ms: seq<Member>, budget: nat)
    requires FitSection(groups, ms, budget)
    ensures forall i :: 0 <= i < |PlainFields(ms)| ==> PlainFields(ms)[i].tag !in groups
  {
    if ms != [] {
      PlainFieldsOfStructured(groups, ms[1..], budget);
    }
  }

  lemma {:induction false} ScanWithoutGroups(d: Dict, v: Formats, o: Options, fields: seq<Field>, pos: nat)
    requires pos <= |fields| && forall i :: 0 <= i < |fields| ==> fields[i].tag !in d.groups
    ensures ScanSection(d, v, o, fields, pos).Ok?
    decreases |fields| - pos
  {
    if pos < |fields| {
      ScanWithoutGroups(d, v, o, fields, pos + 1);
    }
  }

  ghost predicate Enumerates(order: seq<Tag>, keys: set<Tag>) {
    forall t :: t in order <==> t in keys
  }

  /** No count tag heads two groups of one section. */
  ghost predicate DistinctGroups(ms: seq<Member>) {
    forall i, j :: 0 <= i < j < |ms| && ms[i].GroupMember? && ms[j].GroupMember? ==> ms[i].countTag != ms[j].countTag
  }

  lemma {:induction false} CheckFirstsNone(d: Dict, v: Formats, o: Options, order: seq<Tag>, header: seq<Member>, body: seq<Member>)
    ensures CheckFirsts(d, v, o, order, header, body).None? <==>
            forall t :: t in order ==> CheckFirst(d, v, o, header, t).None? && CheckFirst(d, v, o, body, t).None?
  {
    hide CheckFirst;
    if order != [] {
      CheckFirstsNone(d, v, o, order[1..], header, body);
      assert forall t :: t in order <==> t == order[0] || t in order[1..];
    }
  }

  /** The group at `i` is the first of its count tag in the section. */
  ghost predicate IsFirst(ms: seq<Member>, i: nat) {
    && i < |ms| && ms[i].GroupMember?
    && forall j :: 0 <= j < i && ms[j].GroupMember? ==> ms[j].countTag != ms[i].countTag
  }

  /** The first groups meet the structured validator's own demands. */
  ghost predicate FirstsDemand(d: Dict, o: Options, ms: seq<Member>) {
    forall i: nat :: IsFirst(ms, i) ==> DemandsMember(d, o, ms[i])
  }

  /** What only the flat validator asks of a section: readable counts and valid delimiters of the first groups, and
      all of the later ones, which the structured check of a message never looks at. */
  ghost predicate FlatDemands(d: Dict, v: Formats, o: Options, ms: seq<Member>) {
    && (forall i: nat :: IsFirst(ms, i) ==> CountedMember(ms[i]) && ValuedMember(d, v, o, ms[i]))
    && (forall i :: 0 <= i < |ms| && ms[i].GroupMember? && !IsFirst(ms, i) ==> ConformsGroup(d, v, o, ms[i]))
  }

  ghost predicate FirstsChecked(d: Dict, v: Formats, o: Options, ms: seq<Member>) {
    forall t :: t in d.groups ==> CheckFirst(d, v, o, ms, t).None?
  }

  /** Looking a count tag up finds the first group that has it. */
  lemma FirstsAreFirst(d: Dict, v: Formats, o: Options, ms: seq<Member>)
    ensures FirstsChecked(d, v, o, ms) <==>
            forall i: nat :: IsFirst(ms, i) ==>
              CheckGroup(d, v, o, ms[i].entries, ms[i].declared, Following(ms[i..], None), ms[i].countTag).None?
  {
    forall i: nat | IsFirst(ms, i) ensures FirstGroup(ms, ms[i].countTag) == Some(i) {
    }
    if FirstsChecked(d, v, o, ms) {
      forall i: nat | IsFirst(ms, i)
        ensures CheckGroup(d, v, o, ms[i].entries, ms[i].declared, Following(ms[i..], None), ms[i].countTag).None?
      {
        if ms[i].countTag in d.groups { assert CheckFirst(d, v, o, ms, ms[i].countTag).None?; }
      }
    } else {
      var t :| t in d.groups && CheckFirst(d, v, o, ms, t).Some?;
      assert IsFirst(ms, FirstGroup(ms, t).value);
    }
  }

  lemma {:induction false} FitSectionAt(groups: Groups, ms: seq<Member>, i: nat, budget: nat)
    requires FitSection(groups, ms, budget) && i < |ms|
    ensures FitMember(groups, ms[i], Following(ms[i..], None), budget)
  {
    hide FitMember;
    if i == 0 {
      assert ms[0..] == ms;
    } else {
      FitSectionAt(groups, ms[1..], i - 1, budget);
      assert ms[1..][i - 1..] == ms[i..];
    }
  }

  /** The law between the flat check of a section and the structured check of its first groups. */
  lemma FirstsVerdictsAgree(d: Dict, v: Formats, o: Options, ms: seq<Member>, budget: nat)
    requires FitSection(d.groups, ms, budget)
    ensures ConformsSection(d, v, o, ms) && FirstsDemand(d, o, ms) <==> FirstsChecked(d, v, o, ms) && FlatDemands(d, v, o, ms)
    ensures FirstsChecked(d, v, o, ms) ==> FirstsDemand(d, o, ms)
    ensures ConformsSection(d, v, o, ms) ==> FlatDemands(d, v, o, ms)
  {
    hide CheckGroup;
    hide ConformsGroup;
    hide FitSection;
    hide FitMember;
    hide DemandsMember;
    hide CountedMember;
    hide ValuedMember;
    hide FirstsChecked;
    hide IsFirst;
    FirstsAreFirst(d, v, o, ms);
    forall i: nat | IsFirst(ms, i)
      ensures i < |ms| && ms[i].GroupMember?
      ensures FirstLaw(d, v, o, ms, i)
    {
      FirstInside(ms, i);
      FitSectionAt(d.groups, ms, i, budget);
      var next := Following(ms[i..], None);
      CheckGroupIsConformance(d, v, o, ms[i], next, next, budget);
      if CheckGroup(d, v, o, ms[i].entries, ms[i].declared, next, ms[i].countTag).None? {
        CheckGroupDemands(d, v, o, ms[i], next, next, budget);
      }
      if ConformsGroup(d, v, o, ms[i]) {
        ConformsMeets(d, v, o, ms[i]);
      }
    }
  }

  lemma FirstInside(ms: seq<Member>, i: nat)
    requires IsFirst(ms, i)
    ensures i < |ms| && ms[i].GroupMember?
  {
  }

  /** The law at one group of a section. */
  ghost predicate FirstLaw(d: Dict, v: Formats, o: Options, ms: seq<Member>, i: nat)
    requires i < |ms| && ms[i].GroupMember?
  {
    var flat := ConformsGroup(d, v, o, ms[i]);
    var structured := CheckGroup(d, v, o, ms[i].entries, ms[i].declared, Following(ms[i..], None), ms[i].countTag).None?;
    && (flat && DemandsMember(d, o, ms[i]) <==> structured && CountedMember(ms[i]) && ValuedMember(d, v, o, ms[i]))
    && (structured ==> DemandsMember(d, o, ms[i]))
    && (flat ==> CountedMember(ms[i]) && ValuedMember(d, v, o, ms[i]))
  }

  /** The group check of a flat message is the flat validator on header and body. */
  lemma CheckGroupsFlat(d: Dict, v: Formats, o: Options, order: seq<Tag>, header: seq<Field>, body: seq<Field>, trailer: FieldMap)
    ensures CheckGroups(d, v, o, order, Message(FieldMap(AsMembers(header)), FieldMap(AsMembers(body)), trailer, false)).None?
            <==> ScanSection(d, v, o, header, 0).Ok? && ScanSection(d, v, o, body, 0).Ok?
  {
    PlainFieldsOfFlat(header);
    PlainFieldsOfFlat(body);
    CheckFirstsNone(d, v, o, order, AsMembers(header), AsMembers(body));
  }

  /** The group check of a structured message is the structured validator on the first group of each tag. */
  lemma CheckGroupsStructured(d: Dict, v: Formats, o: Options, order: seq<Tag>, m: Message, budget: nat)
    requires FitSection(d.groups, m.header.members, budget) && FitSection(d.groups, m.body.members, budget)
    ensures CheckGroups(d, v, o, order, m).None? <==>
            forall t :: t in order ==>
              CheckFirst(d, v, o, m.header.members, t).None? && CheckFirst(d, v, o, m.body.members, t).None?
  {
    hide CheckFirst;
    CheckFirstsNone(d, v, o, order, m.header.members, m.body.members);
    PlainFieldsOfStructured(d.groups, m.header.members, budget);
    PlainFieldsOfStructured(d.groups, m.body.members, budget);
    ScanWithoutGroups(d, v, o, PlainFields(m.header.members), 0);
    ScanWithoutGroups(d, v, o, PlainFields(m.body.members), 0);
  }

  /** The message-level law, for every dictionary, every header and body field list and all options: each way of
      checking the message meets its own demands, and the two verdicts differ exactly where one accepts what fails
      the other's. */
  lemma MessageVerdictsAgree(
    d: Dict, v: Formats, o: Options, order: seq<Tag>, header: seq<Field>, body: seq<Field>, trailer: FieldMap, budget: nat)
    requires Enumerates(order, d.groups.Keys)
    requires |header| <= I64_MAX && |body| <= I64_MAX
    requires SectionAt(d.groups, header, 0, budget).Built? && SectionAt(d.groups, body, 0, budget).Built?
    ensures var hs, bs := SectionAt(d.groups, header, 0, budget).value, SectionAt(d.groups, body, 0, budget).value;
            var flat := CheckGroups(d, v, o, order, Message(FieldMap(AsMembers(header)), FieldMap(AsMembers(body)), trailer, false)).None?;
            var structured := CheckGroups(d, v, o, order, Message(FieldMap(hs), FieldMap(bs), trailer, false)).None?;
            var demanded := FirstsDemand(d, o, hs) && FirstsDemand(d, o, bs);
            var met := FlatDemands(d, v, o, hs) && FlatDemands(d, v, o, bs);
            && (flat && demanded <==> structured && met)
            && (structured ==> demanded) && (flat ==> met)
            && (flat != structured <==> (flat && !demanded) || (structured && !met))
  {
    hide CheckFirst;
    hide CheckGroups;
    hide ConformsSection;
    hide FirstsDemand;
    hide FlatDemands;
    hide FitSection;
    var hs, bs := SectionAt(d.groups, header, 0, budget).value, SectionAt(d.groups, body, 0, budget).value;
    CheckGroupsFlat(d, v, o, order, header, body, trailer);
    SectionAtFit(d.groups, header, 0, budget);
    SectionAtFit(d.groups, body, 0, budget);
    CheckGroupsStructured(d, v, o, order, Message(FieldMap(hs), FieldMap(bs), trailer, false), budget);
    assert CheckGroups(d, v, o, order, Message(FieldMap(hs), FieldMap(bs), trailer, false)).None? <==>
           FirstsChecked(d, v, o, hs) && FirstsChecked(d, v, o, bs);
    ScanSectionIsConformance(d, v, o, header, 0, budget);
    ScanSectionIsConformance(d, v, o, body, 0, budget);
    FirstsVerdictsAgree(d, v, o, hs, budget);
    FirstsVerdictsAgree(d, v, o, bs, budget);
  }
}
