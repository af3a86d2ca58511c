/** What the agreement of the two group validators owes to the group definitions: where every delimiter is its
    group's first member the validators differ on unreadable counts and on required groups that are empty or stand in
    the delimiter's place, and on nothing else; and only there. */
module GroupDelimiters {
  import opened Decimal
  import opened FieldMaps
  import opened Dictionary
  import opened Grouping
  import opened GroupingRoundTrip
  import opened FlatGroups
  import opened StructuredGroups
  import opened GroupConformance
  import opened GroupAgreement
  import opened TreeAgreement

  /** Each group's delimiter is its first member. */
  ghost predicate DelimitersLead(groups: Groups) {
    forall c :: c in groups ==> groups[c].members != [] && groups[c].members[0] == groups[c].delimiter
  }

  // ----- required nested groups have entries and are no delimiters

  ghost predicate FilledMember(d: Dict, m: Member)
    decreases m, 0
  {
    match m
    case FieldMember(_) => true
    case GroupMember(ct, entries, _) => ct in d.groups ==> FilledEntries(d, d.groups[ct], entries)
  }

  ghost predicate FilledEntries(d: Dict, g: GroupDef, entries: seq<FieldMap>)
    decreases entries, 0
  {
    entries != [] ==> FilledEntry(d, g, entries[0]) && FilledEntries(d, g, entries[1..])
  }

  ghost predicate FilledEntry(d: Dict, g: GroupDef, entry: FieldMap)
    decreases entry, 0
  {
    && (forall t :: t in g.required && t in d.groups ==> t != g.delimiter && GetGroup(entry.members, t) != Some([]))
    && FilledMembers(d, entry.members)
  }

  ghost predicate FilledMembers(d: Dict, ms: seq<Member>)
    decreases ms, 0
  {
    ms != [] ==> FilledMember(d, ms[0]) && FilledMembers(d, ms[1..])
  }

  lemma {:induction false} DemandsAreFilled(d: Dict, o: Options, ms: seq<Member>)
    requires DelimitersLead(d.groups)
    ensures DemandsMembers(d, o, ms) <==> (o.checkRequiredFields ==> FilledMembers(d, ms))
    decreases ms, 1
  {
    hide DelimitersLead;
    if ms != [] {
      DemandsAreFilled(d, o, ms[1..]);
      if ms[0].GroupMember? && ms[0].countTag in d.groups {
        DemandsEntriesAreFilled(d, o, ms[0].countTag, ms[0].entries);
      }
    }
  }

  lemma {:induction false} DemandsEntriesAreFilled(d: Dict, o: Options, c: Tag, entries: seq<FieldMap>)
    requires DelimitersLead(d.groups) && c in d.groups
    ensures DemandsEntries(d, o, d.groups[c], entries) <==> (o.checkRequiredFields ==> FilledEntries(d, d.groups[c], entries))
    decreases entries, 0
  {
    if entries != [] {
      assert Index(d.groups[c].members, d.groups[c].delimiter) == 0;
      DemandsAreFilled(d, o, entries[0].members);
      DemandsEntriesAreFilled(d, o, c, entries[1..]);
    }
  }

  /** The validators agree on the list up to unreadable counts and required groups that are empty or stand in the
      delimiter's place. */
  ghost predicate Agree(d: Dict, v: Formats, o: Options, toks: seq<Field>, budget: nat)
    requires SectionAt(d.groups, toks, 0, budget).Built?
  {
    var ms := SectionAt(d.groups, toks, 0, budget).value;
    ScanSection(d, v, o, toks, 0).Ok? && (o.checkRequiredFields ==> FilledMembers(d, ms)) <==>
    CheckedSection(d, v, o, ms) && CountedMembers(ms)
  }

  lemma LeadingAgree(d: Dict, v: Formats, o: Options, toks: seq<Field>, budget: nat)
    requires DelimitersLead(d.groups) && |toks| <= I64_MAX && SectionAt(d.groups, toks, 0, budget).Built?
    ensures Agree(d, v, o, toks, budget)
    ensures var ms := SectionAt(d.groups, toks, 0, budget).value;
            var filled := o.checkRequiredFields ==> FilledMembers(d, ms);
            var flat, structured := ScanSection(d, v, o, toks, 0).Ok?, CheckedSection(d, v, o, ms);
            && (structured ==> filled) && (flat ==> CountedMembers(ms))
            && (flat != structured <==> (flat && !filled) || (structured && !CountedMembers(ms)))
  {
    hide DemandsMembers;
    hide FilledMembers;
    hide ValuedMembers;
    hide CheckedSection;
    hide CountedMembers;
    hide ScanSection;
    var ms := SectionAt(d.groups, toks, 0, budget).value;
    SectionVerdictsAgree(d, v, o, toks, budget);
    DemandsAreFilled(d, o, ms);
    AlwaysValued(d, v, o, ms);
  }

  lemma {:induction false} EachMember(d: Dict, v: Formats, o: Options, ms: seq<Member>)
    ensures DemandsMembers(d, o, ms) <==> forall i :: 0 <= i < |ms| ==> DemandsMember(d, o, ms[i])
    ensures CountedMembers(ms) && ValuedMembers(d, v, o, ms) <==>
            forall i :: 0 <= i < |ms| ==> CountedMember(ms[i]) && ValuedMember(d, v, o, ms[i])
  {
    hide DemandsMember;
    hide CountedMember;
    hide ValuedMember;
    if ms != [] {
      var rest := ms[1..];
      EachMember(d, v, o, rest);
      assert forall i :: 0 <= i < |rest| ==> rest[i] == ms[i + 1];
      assert forall i :: 1 <= i < |ms| ==> ms[i] == rest[i - 1];
    }
  }

  /** With no count tag repeated every group is a first one. */
  lemma DistinctAreFirst(d: Dict, v: Formats, o: Options, ms: seq<Member>)
    requires DistinctGroups(ms)
    ensures FirstsDemand(d, o, ms) <==> DemandsMembers(d, o, ms)
    ensures FlatDemands(d, v, o, ms) <==> CountedMembers(ms) && ValuedMembers(d, v, o, ms)
  {
    EachMember(d, v, o, ms);
    hide DemandsMember;
    hide CountedMember;
    hide ValuedMember;
    hide DemandsMembers;
    hide CountedMembers;
    hide ValuedMembers;
    forall i | 0 <= i < |ms|
      ensures ms[i].GroupMember? ==> IsFirst(ms, i)
      ensures ms[i].FieldMember? ==> DemandsMember(d, o, ms[i]) && CountedMember(ms[i]) && ValuedMember(d, v, o, ms[i])
    {
      if ms[i].FieldMember? {
        FieldsDemandNothing(d, v, o, ms[i]);
      }
    }
  }

  /** So messages with no count tag repeated at the top level get the same verdict flat and structured, up to
      unreadable counts and required groups that are empty or stand in the delimiter's place. */
  lemma LeadingMessagesAgree(
    d: Dict, v: Formats, o: Options, order: seq<Tag>, header: seq<Field>, body: seq<Field>, trailer: FieldMap, budget: nat)
    requires DelimitersLead(d.groups) && Enumerates(order, d.groups.Keys)
    requires |header| <= I64_MAX && |body| <= I64_MAX
    requires SectionAt(d.groups, header, 0, budget).Built? && SectionAt(d.groups, body, 0, budget).Built?
    requires DistinctGroups(SectionAt(d.groups, header, 0, budget).value)
    requires DistinctGroups(SectionAt(d.groups, body, 0, budget).value)
    ensures var hs, bs := SectionAt(d.groups, header, 0, budget).value, SectionAt(d.groups, body, 0, budget).value;
            var flat := CheckGroups(d, v, o, order, Message(FieldMap(AsMembers(header)), FieldMap(AsMembers(body)), trailer, false)).None?;
            var structured := CheckGroups(d, v, o, order, Message(FieldMap(hs), FieldMap(bs), trailer, false)).None?;
            var filled := o.checkRequiredFields ==> FilledMembers(d, hs) && FilledMembers(d, bs);
            var counted := CountedMembers(hs) && CountedMembers(bs);
            && (flat && filled <==> structured && counted)
            && (structured ==> filled) && (flat ==> counted)
            && (flat != structured <==> (flat && !filled) || (structured && !counted))
  {
    hide DemandsMembers;
    hide FilledMembers;
    hide ValuedMembers;
    hide CheckGroups;
    hide CountedMembers;
    hide DistinctGroups;
    hide FirstsDemand;
    hide FlatDemands;
    hide SectionAt;
    var hs, bs := SectionAt(d.groups, header, 0, budget).value, SectionAt(d.groups, body, 0, budget).value;
    MessageVerdictsAgree(d, v, o, order, header, body, trailer, budget);
    DemandsAreFilled(d, o, hs);
    DemandsAreFilled(d, o, bs);
    AlwaysValued(d, v, o, hs);
    AlwaysValued(d, v, o, bs);
    DistinctAreFirst(d, v, o, hs);
    DistinctAreFirst(d, v, o, bs);
  }

  // ----- and where some delimiter is not first they differ further

  const ONE: seq<Byte> := [49]
  const ZERO_DIGIT: seq<Byte> := [48]

  lemma DigitReads(b: Byte)
    requires IsDigit(b)
    ensures ParseI64([b]) == Some(b - 48)
  {
    assert [b][..0] == [];
    assert DigitsValue([b]) == DigitsValue([]) * 10 + (b - 48);
  }

  /** Options that ask for nothing but order, or nothing but values. */
  function Only(order: bool, values: bool): Options {
    Options(values, false, false, false, false, false, false, order, false, false, false, false, false, false, false)
  }

  /** A section that is one group of one entry. */
  lemma OneEntry(groups: Groups, toks: seq<Field>, c: Tag, ms: seq<Member>, budget: nat)
    requires |toks| >= 2 && c in groups && toks[0] == Field(c, ONE) && toks[1].tag == groups[c].delimiter && budget > 0
    requires MembersAt(groups, toks, 2, groups[c], budget) == Built(|toks|, ms)
    ensures SectionAt(groups, toks, 0, budget)
         == Built(|toks|, [GroupMember(c, [FieldMap([FieldMember(toks[1])] + ms)], Some(1))])
  {
    hide MembersAt;
    var entry := FieldMap([FieldMember(toks[1])] + ms);
    var m := GroupMember(c, [entry], Some(1));
    DigitReads(49);
    assert EntriesAt(groups, toks, |toks|, groups[c], budget) == Built(|toks|, []);
    assert [entry] + [] == [entry];
    assert EntriesAt(groups, toks, 1, groups[c], budget) == Built(|toks|, [entry]);
    assert GroupAt(groups, toks, 0, c, budget) == Built(|toks|, m);
    assert SectionAt(groups, toks, |toks|, budget) == Built(|toks|, []);
    assert [m] + [] == [m];
  }

  lemma CheckedOne(d: Dict, v: Formats, o: Options, c: Tag, entry: FieldMap)
    requires c in d.groups && !o.checkRequiredFields
    ensures var m := GroupMember(c, [entry], Some(1));
            CheckedSection(d, v, o, [m]) <==> CheckMembers(d, v, o, d.groups[c], entry.members, 0, None).None?
  {
    hide CheckMembers;
    var m := GroupMember(c, [entry], Some(1));
    var g := d.groups[c];
    assert [m][0..] == [m] && [entry][1..] == [];
    assert CheckEntries(d, v, o, g, [], None).None?;
    assert CheckEntries(d, v, o, g, [entry], None) == CheckEntry(d, v, o, g, entry, None);
    assert CheckGroup(d, v, o, [entry], Some(1), None, c) == CheckEntry(d, v, o, g, entry, None);
    if CheckedSection(d, v, o, [m]) {
      assert [m][0].GroupMember?;
    }
  }

  lemma CountedOne(c: Tag, entry: FieldMap)
    requires CountedMembers(entry.members)
    ensures CountedMembers([GroupMember(c, [entry], Some(1))])
  {
    assert [entry][1..] == [];
    assert CountedEntries([entry]);
  }

  /** A delimiter that is no member: an empty value is refused flat only. */
  lemma ForeignDelimiterDiffers(d: Dict, v: Formats, c: Tag)
    requires c in d.groups && d.groups[c].delimiter !in d.groups[c].members
    ensures var toks := [Field(c, ONE), Field(d.groups[c].delimiter, [])];
            && SectionAt(d.groups, toks, 0, MAX_GROUP_NESTING_DEPTH).Built?
            && !Agree(d, v, Only(false, true), toks, MAX_GROUP_NESTING_DEPTH)
  {
    var g, o := d.groups[c], Only(false, true);
    var toks := [Field(c, ONE), Field(g.delimiter, [])];
    var entry := FieldMap([FieldMember(toks[1])]);
    assert [FieldMember(toks[1])] + [] == entry.members;
    OneEntry(d.groups, toks, c, [], MAX_GROUP_NESTING_DEPTH);
    DigitReads(49);
    assert ScanEntry(d, v, o, toks, 1, g).Err?;
    assert ScanGroup(d, v, o, toks, 0, c).Err?;
    assert entry.members[1..] == [];
    assert CheckMembers(d, v, o, g, [], 0, None).None?;
    CheckedOne(d, v, o, c, entry);
    CountedOne(c, entry);
  }

  /** A member declared before the delimiter: it stands after the delimiter in every entry, which the structured
      order check refuses and the flat one does not look at. */
  lemma LateDelimiterDiffers(d: Dict, v: Formats, c: Tag)
    requires c in d.groups && d.groups[c].delimiter in d.groups[c].members && d.groups[c].members[0] != d.groups[c].delimiter
    ensures var g := d.groups[c];
            var toks := [Field(c, ONE), Field(g.delimiter, ZERO_DIGIT), Field(g.members[0], ZERO_DIGIT)];
            && SectionAt(d.groups, toks, 0, MAX_GROUP_NESTING_DEPTH).Built?
            && !Agree(d, v, Only(true, false), toks, MAX_GROUP_NESTING_DEPTH)
  {
    var g, o := d.groups[c], Only(true, false);
    var t := g.members[0];
    var toks := [Field(c, ONE), Field(g.delimiter, ZERO_DIGIT), Field(t, ZERO_DIGIT)];
    DigitReads(49);
    DigitReads(48);
    var m := if t in d.groups then GroupMember(t, [], Some(0)) else FieldMember(toks[2]);
    assert t in d.groups ==> EntriesAt(d.groups, toks, 3, d.groups[t], MAX_GROUP_NESTING_DEPTH - 1) == Built(3, []);
    assert AsInt(toks[2]) == Some(0);
    assert MemberAt(d.groups, toks, 2, MAX_GROUP_NESTING_DEPTH - 1) == Built(3, m);
    assert MembersAt(d.groups, toks, 3, g, MAX_GROUP_NESTING_DEPTH) == Built(3, []);
    assert [m] + [] == [m];
    assert MembersAt(d.groups, toks, 2, g, MAX_GROUP_NESTING_DEPTH) == Built(3, [m]);
    OneEntry(d.groups, toks, c, [m], MAX_GROUP_NESTING_DEPTH);
    LateDelimiterScans(d, v, c, toks);
    var entry := FieldMap([FieldMember(toks[1])] + [m]);
    LateDelimiterChecks(d, v, g, toks[1], m);
    CheckedOne(d, v, o, c, entry);
  }

  lemma LateDelimiterScans(d: Dict, v: Formats, c: Tag, toks: seq<Field>)
    requires c in d.groups && d.groups[c].members != [] && d.groups[c].members[0] != d.groups[c].delimiter
    requires var g := d.groups[c];
             toks == [Field(c, ONE), Field(g.delimiter, ZERO_DIGIT), Field(g.members[0], ZERO_DIGIT)]
    ensures ScanSection(d, v, Only(true, false), toks, 0).Ok?
  {
    var g, o := d.groups[c], Only(true, false);
    var t := g.members[0];
    DigitReads(49);
    DigitReads(48);
    assert t in d.groups ==> ScanEntries(d, v, o, toks, 3, t, 0, 0) == Ok(3);
    assert ScanMember(d, v, o, toks, 2, g) == Ok(3);
    assert ScanMembers(d, v, o, toks, 2, g, 0, [g.delimiter]).Ok? && ScanMembers(d, v, o, toks, 2, g, 0, [g.delimiter]).value.0 == 3;
    assert ScanEntry(d, v, o, toks, 1, g) == Ok(3);
    assert ScanEntries(d, v, o, toks, 3, c, 1, 1) == Ok(3);
    assert ScanEntries(d, v, o, toks, 1, c, 1, 0) == Ok(3);
    assert ScanGroup(d, v, o, toks, 0, c) == Ok(3);
  }

  lemma LateDelimiterChecks(d: Dict, v: Formats, g: GroupDef, first: Field, m: Member)
    requires first.tag == g.delimiter && g.delimiter in g.members && TagOf(m) == g.members[0] != g.delimiter
    ensures CheckMembers(d, v, Only(true, false), g, [FieldMember(first)] + [m], 0, None).Some?
  {
    var ms := [FieldMember(first)] + [m];
    assert ms[1..] == [m];
    assert Index(g.members, g.delimiter) > 0 && Index(g.members, TagOf(m)) == 0;
  }

  /** The exact condition on the group definitions: the validators agree on every field list and for all options,
      up to unreadable counts and required groups that are empty or stand in the delimiter's place, if and only if
      every delimiter is its group's first member. */
  lemma DelimitersExactly(d: Dict, v: Formats)
    ensures DelimitersLead(d.groups) <==>
            forall o: Options, toks: seq<Field> ::
              |toks| <= I64_MAX && SectionAt(d.groups, toks, 0, MAX_GROUP_NESTING_DEPTH).Built? ==>
              Agree(d, v, o, toks, MAX_GROUP_NESTING_DEPTH)
  {
    hide Agree;
    hide SectionAt;
    if DelimitersLead(d.groups) {
      forall o: Options, toks: seq<Field> | |toks| <= I64_MAX && SectionAt(d.groups, toks, 0, MAX_GROUP_NESTING_DEPTH).Built?
        ensures Agree(d, v, o, toks, MAX_GROUP_NESTING_DEPTH)
      {
        LeadingAgree(d, v, o, toks, MAX_GROUP_NESTING_DEPTH);
      }
    } else {
      var c :| c in d.groups && !(d.groups[c].members != [] && d.groups[c].members[0] == d.groups[c].delimiter);
      if d.groups[c].delimiter in d.groups[c].members {
        LateDelimiterDiffers(d, v, c);
      } else {
        ForeignDelimiterDiffers(d, v, c);
      }
    }
  }
}
