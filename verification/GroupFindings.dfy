/** Field lists on which the two group validators of `truefix-dict/src/validate.rs` disagree, one for each
    way they can. */
module GroupFindings {
  import opened Decimal
  import opened FieldMaps
  import opened Dictionary
  import opened Grouping
  import opened FlatGroups
  import opened StructuredGroups
  import opened GroupingRoundTrip
  import opened GroupAgreement
  import opened GroupDelimiters

  /** Group 20 holds field 21; group 10 holds field 11 and requires a nested group 20. */
  const inner := GroupDef(21, [21], [], None)
  const outer := GroupDef(11, [11, 20], [20], None)
  const dict := Dict("FIX.4.4", map[], map[], map[], {}, {}, map[10 := outer, 20 := inner], map[])

  const letter: seq<Byte> := [65]
  const one: seq<Byte> := [49]
  const zero: seq<Byte> := [48]

  /** A count that is not a number: rejected flat, accepted structured. */
  lemma UnreadableCountDiffers(v: Formats, o: Options)
    ensures var toks := [Field(20, letter), Field(21, letter)];
            && DelimitersLead(dict.groups)
            && SectionAt(dict.groups, toks, 0, MAX_GROUP_NESTING_DEPTH).Built?
            && ScanSection(dict, v, o, toks, 0) == Err(Session(IncorrectDataFormat, 20))
            && CheckedSection(dict, v, o, SectionAt(dict.groups, toks, 0, MAX_GROUP_NESTING_DEPTH).value)
  {
    var toks := [Field(20, letter), Field(21, letter)];
    var entry := FieldMap([FieldMember(toks[1])]);
    UnreadableReads(toks, entry);
    UnreadableRejected(v, o, toks);
    UnreadableAccepted(v, o, entry, toks[1]);
    hide SectionAt;
    hide ScanSection;
    hide CheckGroup;
    var m := GroupMember(20, [entry], None);
    assert [m][0..] == [m];
  }

  lemma UnreadableRejected(v: Formats, o: Options, toks: seq<Field>)
    requires toks == [Field(20, letter), Field(21, letter)]
    ensures ScanSection(dict, v, o, toks, 0) == Err(Session(IncorrectDataFormat, 20))
  {
    hide ScanEntries;
    assert ParseI64(letter).None?;
    assert ScanGroup(dict, v, o, toks, 0, 20) == Err(Session(IncorrectDataFormat, 20));
  }

  lemma UnreadableAccepted(v: Formats, o: Options, entry: FieldMap, f: Field)
    requires f == Field(21, letter) && entry == FieldMap([FieldMember(f)])
    ensures CheckGroup(dict, v, o, [entry], None, None, 20).None?
  {
    assert entry.members[1..] == [] && [entry][1..] == [];
    assert EntryFieldValue(dict, v, o, inner, f).None?;
    assert CheckMembers(dict, v, o, inner, entry.members, 0, None).None?;
    assert CheckEntry(dict, v, o, inner, entry, None).None?;
    assert CheckEntries(dict, v, o, inner, [entry], None).None?;
  }

  /** A required nested group that is present but empty: accepted flat, rejected structured. */
  lemma EmptyRequiredGroupDiffers(v: Formats, o: Options)
    requires o.checkRequiredFields
    ensures var toks := [Field(10, one), Field(11, letter), Field(20, zero)];
            && ScanSection(dict, v, o, toks, 0).Ok?
            && SectionAt(dict.groups, toks, 0, MAX_GROUP_NESTING_DEPTH).Built?
            && !CheckedSection(dict, v, o, SectionAt(dict.groups, toks, 0, MAX_GROUP_NESTING_DEPTH).value)
  {
    var toks := [Field(10, one), Field(11, letter), Field(20, zero)];
    DigitReads(49);
    DigitReads(48);
    var nested := GroupMember(20, [], Some(0));
    var entry := FieldMap([FieldMember(toks[1]), nested]);
    assert GroupAt(dict.groups, toks, 2, 20, 31) == Built(3, nested);
    assert MembersAt(dict.groups, toks, 3, outer, 32) == Built(3, []);
    assert [nested] + [] == [nested];
    assert MembersAt(dict.groups, toks, 2, outer, 32) == Built(3, [nested]);
    assert EntriesAt(dict.groups, toks, 3, outer, 32) == Built(3, []);
    assert [FieldMember(toks[1])] + [nested] == entry.members && [entry] + [] == [entry];
    assert EntriesAt(dict.groups, toks, 1, outer, 32) == Built(3, [entry]);
    var group := GroupMember(10, [entry], Some(1));
    assert GroupAt(dict.groups, toks, 0, 10, 32) == Built(3, group);
    assert SectionAt(dict.groups, toks, 3, 32) == Built(3, []);
    assert [group] + [] == [group];
    assert SectionAt(dict.groups, toks, 0, 32) == Built(3, [group]);
    assert ScanGroup(dict, v, o, toks, 2, 20) == Ok(3);
    assert ScanMembers(dict, v, o, toks, 3, outer, 1, [11, 20]) == Ok((3, [11, 20]));
    assert [11] + [20] == [11, 20];
    assert ScanMembers(dict, v, o, toks, 2, outer, 0, [11]) == Ok((3, [11, 20]));
    assert ScanEntry(dict, v, o, toks, 1, outer) == Ok(3);
    assert ScanEntries(dict, v, o, toks, 3, 10, 1, 1) == Ok(3);
    assert ScanEntries(dict, v, o, toks, 1, 10, 1, 0) == Ok(3);
    assert ScanGroup(dict, v, o, toks, 0, 10) == Ok(3);
    assert GetGroup(entry.members, 20) == Some([]) by { assert entry.members[1..] == [nested]; }
    assert !PresentInEntry(dict, entry.members, 20);
    assert CheckEntry(dict, v, o, outer, entry, None).Some?;
    assert [group][0].GroupMember? && CheckGroup(dict, v, o, [entry], Some(1), None, 10).Some?;
  }

  /** A second group with the same count tag at the top level: the structured check of the message looks at
      the first only, so a wrong count in the second is rejected flat and accepted structured. */
  lemma RepeatedGroupDiffers(v: Formats, o: Options)
    ensures var toks := [Field(20, zero), Field(20, one)];
            && ScanSection(dict, v, o, toks, 0) == Err(Session(IncorrectNumInGroupCount, 20))
            && SectionAt(dict.groups, toks, 0, MAX_GROUP_NESTING_DEPTH).Built?
            && var body := FieldMap(SectionAt(dict.groups, toks, 0, MAX_GROUP_NESTING_DEPTH).value);
               CheckGroups(dict, v, o, [10, 20], Message(FieldMap([]), body, FieldMap([]), false)).None?
  {
    var toks := [Field(20, zero), Field(20, one)];
    DigitReads(49);
    DigitReads(48);
    var first, second := GroupMember(20, [], Some(0)), GroupMember(20, [], Some(1));
    assert GroupAt(dict.groups, toks, 0, 20, 32) == Built(1, first);
    assert GroupAt(dict.groups, toks, 1, 20, 32) == Built(2, second);
    assert SectionAt(dict.groups, toks, 2, 32) == Built(2, []);
    assert [second] + [] == [second];
    assert SectionAt(dict.groups, toks, 1, 32) == Built(2, [second]);
    assert [first] + [second] == [first, second];
    assert SectionAt(dict.groups, toks, 0, 32) == Built(2, [first, second]);
    assert ScanEntries(dict, v, o, toks, 1, 20, 0, 0) == Ok(1);
    assert ScanGroup(dict, v, o, toks, 1, 20) == Err(Session(IncorrectNumInGroupCount, 20));
    var ms := [first, second];
    assert FirstGroup(ms, 20) == Some(0);
    assert FirstGroup(ms, 10) == None by { assert ms[1..] == [second]; }
    assert CheckFirst(dict, v, o, ms, 20).None? && CheckFirst(dict, v, o, ms, 10).None?;
    assert [10, 20][1..] == [20] && [20][1..] == [];
    assert CheckFirsts(dict, v, o, [20], [], ms).None?;
    assert ms[1..] == [second] && [second][1..] == [];
    assert PlainFields([second]) == [] + PlainFields([]) == [];
    assert PlainFields(ms) == [] + PlainFields([second]) == [];
    assert PlainFields([]) == [];
  }

  // ----- delimiters that are not first, or are count tags themselves

  /** Group 10 declares field 11 before its delimiter 12. */
  const late := GroupDef(12, [11, 12], [], None)
  const lateDict := Dict("FIX.4.4", map[], map[], map[], {}, {}, map[10 := late], map[])

  /** An entry in the only order the reader of groups takes: accepted flat, rejected structured once order is
      checked, with every count readable, no group required and none repeated. */
  lemma LateDelimiterRejected(v: Formats, o: Options)
    requires o.validateUnorderedGroupFields
    ensures var toks := [Field(10, one), Field(12, letter), Field(11, letter)];
            && SectionAt(lateDict.groups, toks, 0, MAX_GROUP_NESTING_DEPTH).Built?
            && var ms := SectionAt(lateDict.groups, toks, 0, MAX_GROUP_NESTING_DEPTH).value;
               && ScanSection(lateDict, v, o, toks, 0).Ok? && !CheckedSection(lateDict, v, o, ms)
               && CountedMembers(ms) && FilledMembers(lateDict, ms) && DistinctGroups(ms)
  {
    var toks := [Field(10, one), Field(12, letter), Field(11, letter)];
    var last := FieldMember(toks[2]);
    var entry := FieldMap([FieldMember(toks[1])] + [last]);
    assert MembersAt(lateDict.groups, toks, 3, late, 32) == Built(3, []);
    assert [last] + [] == [last];
    assert MembersAt(lateDict.groups, toks, 2, late, 32) == Built(3, [last]);
    OneEntry(lateDict.groups, toks, 10, [last], MAX_GROUP_NESTING_DEPTH);
    DigitReads(49);
    assert ScanMembers(lateDict, v, o, toks, 3, late, 0, [12] + [11]) == Ok((3, [12] + [11]));
    assert ScanMembers(lateDict, v, o, toks, 2, late, 0, [12]) == Ok((3, [12] + [11]));
    assert ScanEntry(lateDict, v, o, toks, 1, late) == Ok(3);
    assert ScanEntries(lateDict, v, o, toks, 3, 10, 1, 1) == Ok(3);
    assert ScanEntries(lateDict, v, o, toks, 1, 10, 1, 0) == Ok(3);
    assert ScanGroup(lateDict, v, o, toks, 0, 10) == Ok(3);
    LateEntryRejected(v, o, entry, last);
    var group := GroupMember(10, [entry], Some(1));
    assert [group][0].GroupMember? && [group][0..] == [group];
    PlainEntryFilled(entry, toks[1], toks[2]);
    CountedOne(10, entry);
    assert [entry][1..] == [] && FilledEntries(lateDict, late, []);
    assert FilledEntries(lateDict, late, [entry]);
    assert [group][1..] == [] && FilledMembers(lateDict, []);
  }

  lemma LateEntryRejected(v: Formats, o: Options, entry: FieldMap, last: Member)
    requires o.validateUnorderedGroupFields && TagOf(last) == 11
    requires |entry.members| == 2 && entry.members[0].FieldMember? && TagOf(entry.members[0]) == 12 && entry.members[1] == last
    ensures CheckGroup(lateDict, v, o, [entry], Some(1), None, 10).Some?
  {
    assert entry.members[1..] == [last];
    assert Index(late.members, 12) == 1 && Index(late.members, 11) == 0;
    assert CheckMembers(lateDict, v, o, late, entry.members, 0, None).Some?;
    assert CheckEntry(lateDict, v, o, late, entry, None).Some?;
    assert CheckEntries(lateDict, v, o, late, [entry], None).Some?;
  }

  lemma PlainEntryFilled(entry: FieldMap, a: Field, b: Field)
    requires entry == FieldMap([FieldMember(a)] + [FieldMember(b)])
    ensures CountedMembers(entry.members) && FilledEntry(lateDict, late, entry)
  {
    var last := [FieldMember(b)];
    assert entry.members[1..] == last && last[1..] == [];
    assert CountedMembers([]) && FilledMembers(lateDict, []);
    assert CountedMembers(last) && FilledMembers(lateDict, last);
  }

  /** Group 10 is delimited by the count tag of group 20, which it also requires. */
  const counted := GroupDef(20, [20], [20], None)
  const countedDict := Dict("FIX.4.4", map[], map[], map[], {}, {}, map[10 := counted, 20 := inner], map[])

  /** The delimiter is read as a field, so the flat validator sees it and the structured one misses the group. */
  lemma CountTagDelimiterRejected(v: Formats, o: Options)
    requires o.checkRequiredFields
    ensures var toks := [Field(10, one), Field(20, one)];
            && SectionAt(countedDict.groups, toks, 0, MAX_GROUP_NESTING_DEPTH).Built?
            && var ms := SectionAt(countedDict.groups, toks, 0, MAX_GROUP_NESTING_DEPTH).value;
               ScanSection(countedDict, v, o, toks, 0).Ok? && !CheckedSection(countedDict, v, o, ms) && CountedMembers(ms)
  {
    var toks := [Field(10, one), Field(20, one)];
    var entry := FieldMap([FieldMember(toks[1])]);
    assert [FieldMember(toks[1])] + [] == entry.members;
    OneEntry(countedDict.groups, toks, 10, [], MAX_GROUP_NESTING_DEPTH);
    DigitReads(49);
    assert ScanMembers(countedDict, v, o, toks, 2, counted, 0, [20]) == Ok((2, [20]));
    assert ScanEntry(countedDict, v, o, toks, 1, counted) == Ok(2);
    assert ScanEntries(countedDict, v, o, toks, 2, 10, 1, 1) == Ok(2);
    assert ScanEntries(countedDict, v, o, toks, 1, 10, 1, 0) == Ok(2);
    assert ScanGroup(countedDict, v, o, toks, 0, 10) == Ok(2);
    assert entry.members[1..] == [] && GetGroup([], 20) == None;
    assert GetGroup(entry.members, 20) == None;
    assert !PresentInEntry(countedDict, entry.members, 20);
    assert CheckEntry(countedDict, v, o, counted, entry, None).Some?;
    assert CheckEntries(countedDict, v, o, counted, [entry], None).Some?;
    var group := GroupMember(10, [entry], Some(1));
    assert CheckGroup(countedDict, v, o, [entry], Some(1), None, 10).Some?;
    assert [group][0].GroupMember? && [group][0..] == [group];
    CountedOne(10, entry);
  }

  // ----- restructuring

  /** Restructuring records the number of entries where the count was unreadable, so it is no no-op here. */
  lemma RestructureChanges()
    ensures var toks := [Field(20, letter), Field(21, letter)];
            && SectionAt(dict.groups, toks, 0, MAX_GROUP_NESTING_DEPTH).Built?
            && var ms := SectionAt(dict.groups, toks, 0, MAX_GROUP_NESTING_DEPTH).value;
               && |ms| == 1 && ms[0].GroupMember? && ms[0].declared == None
               && Restructure(dict.groups, ms, MAX_GROUP_NESTING_DEPTH) == Built(2, [ms[0].(declared := Some(1))])
  {
    var toks := [Field(20, letter), Field(21, letter)];
    var entry := FieldMap([FieldMember(toks[1])]);
    var m := GroupMember(20, [entry], None);
    UnreadableReads(toks, entry);
    var ms := [m];
    RestructureStructured(dict.groups, toks, MAX_GROUP_NESTING_DEPTH);
    assert [entry][1..] == [] && ms[1..] == [];
    assert [FieldMember(toks[1])][1..] == [];
    assert FlattenMembers([]) == [] && FlattenEntries([]) == [];
    assert FlattenMembers(entry.members) == [toks[1]] + [];
    assert FlattenEntries([entry]) == FlattenMembers(entry.members) + [];
    assert |FlattenMember(m)| == 2 && FlattenMembers(ms) == FlattenMember(m) + [];
    assert DeclareMembers(entry.members) == entry.members by { assert DeclareMembers([]) == []; }
    assert DeclareEntries([entry]) == [entry] by { assert DeclareEntries([]) == []; }
    assert DeclareMembers(ms) == [m.(declared := Some(1))] by { assert DeclareMembers([]) == []; }
  }

  lemma UnreadableReads(toks: seq<Field>, entry: FieldMap)
    requires toks == [Field(20, letter), Field(21, letter)] && entry == FieldMap([FieldMember(toks[1])])
    ensures SectionAt(dict.groups, toks, 0, MAX_GROUP_NESTING_DEPTH) == Built(2, [GroupMember(20, [entry], None)])
  {
    assert MembersAt(dict.groups, toks, 2, inner, 32) == Built(2, []);
    assert EntriesAt(dict.groups, toks, 2, inner, 32) == Built(2, []);
    assert [FieldMember(toks[1])] + [] == entry.members && [entry] + [] == [entry];
    assert EntriesAt(dict.groups, toks, 1, inner, 32) == Built(2, [entry]);
    assert ParseI64(letter).None?;
    assert GroupAt(dict.groups, toks, 0, 20, 32) == Built(2, GroupMember(20, [entry], None));
    assert SectionAt(dict.groups, toks, 2, 32) == Built(2, []);
    var m := GroupMember(20, [entry], None);
    assert [m] + [] == [m];
  }
}
