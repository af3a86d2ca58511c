/** What the two group validators say when they reject: every rejection names the first fault the tree has, in the
    order in which each of them looks. */
module GroupFaults {
  import opened Decimal
  import opened FieldMaps
  import opened Dictionary
  import opened Grouping
  import opened FlatGroups
  import opened StructuredGroups
  import opened GroupConformance
  import opened StructuredConformance

  // ----- nothing wrong

  ghost predicate GoodMember(d: Dict, v: Formats, o: Options, flat: bool, g: GroupDef, m: Member) {
    if flat then ConformsMember(d, v, o, g, m) else TagOf(m) in g.members ==> AcceptedMember(d, v, o, g, m)
  }

  ghost predicate GoodEntry(d: Dict, v: Formats, o: Options, flat: bool, g: GroupDef, entry: FieldMap) {
    if flat then ConformsEntry(d, v, o, g, entry) else AcceptedEntry(d, v, o, g, entry)
  }

  // ----- the first fault

  /** `e` names the first fault of the group. The structured validator looks at a count first, the flat one at a count
      that is no number first and at a wrong one last. */
  ghost predicate FaultyGroup(d: Dict, v: Formats, o: Options, flat: bool, m: Member, e: Rejection)
    requires m.GroupMember? && m.countTag in d.groups
    decreases m, 0
  {
    var g := d.groups[m.countTag];
    var wrong := m.declared.Some? && m.declared.value != |m.entries|;
    if flat && m.declared.None? then e == Session(IncorrectDataFormat, m.countTag)
    else if !flat && wrong then Miscounted(d, o, flat, m, e)
    else
      || (exists i :: 0 <= i < |m.entries| && FaultyEntry(d, v, o, flat, g, m.entries[i], e)
                      && forall j :: 0 <= j < i ==> GoodEntry(d, v, o, flat, g, m.entries[j]))
      || (flat && wrong && Miscounted(d, o, flat, m, e) && forall j :: 0 <= j < |m.entries| ==> GoodEntry(d, v, o, flat, g, m.entries[j]))
  }

  /** The number is wrong, or entries are missing and one seems to lack its delimiter. */
  ghost predicate Miscounted(d: Dict, o: Options, flat: bool, m: Member, e: Rejection)
    requires m.GroupMember? && m.countTag in d.groups && m.declared.Some?
  {
    || e == Session(IncorrectNumInGroupCount, m.countTag)
    || (&& (m.declared.value > |m.entries| || (!flat && m.declared.value < 0)) && o.firstFieldInGroupIsDelimiter
        && e == Session(RepeatingGroupFieldsOutOfOrder, d.groups[m.countTag].delimiter))
  }

  /** The delimiter's value for the flat validator, then the members one by one, then the required tags in order. */
  ghost predicate FaultyEntry(d: Dict, v: Formats, o: Options, flat: bool, g: GroupDef, entry: FieldMap, e: Rejection)
    decreases entry, 0
  {
    var ms := if flat && entry.members != [] then entry.members[1..] else entry.members;
    if flat && entry.members != [] && entry.members[0].FieldMember? && !ValidValue(d, v, o, g, entry.members[0].field)
    then e == ValueFault(d, v, o, g, entry.members[0].field)
    else
      || FaultyMembers(d, v, o, flat, g, ms, e)
      || (&& (forall k :: 0 <= k < |ms| ==> GoodMember(d, v, o, flat, g, ms[k]) && !Misplaced(o, g, 0, ms, k))
          && o.checkRequiredFields
          && exists i :: 0 <= i < |g.required| && FirstLack(d, flat, entry.members, g.required, i)
                         && e == Session(RequiredTagMissing, g.required[i]))
  }

  ghost predicate FirstLack(d: Dict, flat: bool, ms: seq<Member>, required: seq<Tag>, i: nat)
    requires i < |required|
  {
    Lacks(d, flat, ms, required[i]) && forall j :: 0 <= j < i ==> !Lacks(d, flat, ms, required[j])
  }

  ghost predicate Lacks(d: Dict, flat: bool, ms: seq<Member>, t: Tag) {
    if flat then t !in Tags(ms) else !Supplied(d, ms, t)
  }

  /** Where order is checked: a member declared earlier than `lastIdx`, or than one that stands before it. */
  ghost predicate Misplaced(o: Options, g: GroupDef, lastIdx: nat, ms: seq<Member>, j: nat)
    requires j < |ms|
  {
    && o.validateUnorderedGroupFields && TagOf(ms[j]) in g.members
    && (|| Index(g.members, TagOf(ms[j])) < lastIdx
        || exists i :: 0 <= i < j && TagOf(ms[i]) in g.members && Index(g.members, TagOf(ms[j])) < Index(g.members, TagOf(ms[i])))
  }

  ghost predicate FaultyMembers(d: Dict, v: Formats, o: Options, flat: bool, g: GroupDef, ms: seq<Member>, e: Rejection)
    decreases ms, 1
  {
    exists j :: 0 <= j < |ms| && FaultyAt(d, v, o, flat, g, 0, ms, j, e)
  }

  /** The first fault among the members is at `j`: its place, or else something in it. */
  ghost predicate FaultyAt(d: Dict, v: Formats, o: Options, flat: bool, g: GroupDef, lastIdx: nat, ms: seq<Member>, j: nat, e: Rejection)
    requires j < |ms|
    decreases ms, 0
  {
    && TagOf(ms[j]) in g.members
    && (forall k :: 0 <= k < j ==> GoodMember(d, v, o, flat, g, ms[k]) && !Misplaced(o, g, lastIdx, ms, k))
    && if Misplaced(o, g, lastIdx, ms, j) then e == Session(RepeatingGroupFieldsOutOfOrder, TagOf(ms[j]))
       else FaultyMember(d, v, o, flat, g, ms[j], e)
  }

  ghost predicate FaultyMember(d: Dict, v: Formats, o: Options, flat: bool, g: GroupDef, m: Member, e: Rejection)
    decreases m, 1
  {
    if m.GroupMember? then m.countTag in d.groups && FaultyGroup(d, v, o, flat, m, e)
    else !ValidValue(d, v, o, g, m.field) && e == ValueFault(d, v, o, g, m.field)
  }

  // ----- lists of members

  /** The members are good and in their places, none of them below `lastIdx`. */
  ghost predicate GoodMembers(d: Dict, v: Formats, o: Options, flat: bool, g: GroupDef, lastIdx: nat, ms: seq<Member>) {
    forall k :: 0 <= k < |ms| ==> GoodMember(d, v, o, flat, g, ms[k]) && !Misplaced(o, g, lastIdx, ms, k)
  }

  lemma MisplacedTail(o: Options, g: GroupDef, lastIdx: nat, idx: nat, ms: seq<Member>, k: nat)
    requires k + 1 < |ms| && !Misplaced(o, g, lastIdx, ms, 0)
    requires idx == if TagOf(ms[0]) in g.members then Index(g.members, TagOf(ms[0])) else lastIdx
    ensures Misplaced(o, g, lastIdx, ms, k + 1) <==> Misplaced(o, g, idx, ms[1..], k)
  {
    var rest := ms[1..];
    assert ms[k + 1] == rest[k];
    if Misplaced(o, g, lastIdx, ms, k + 1) && !(Index(g.members, TagOf(ms[k + 1])) < lastIdx) {
      var i :| 0 <= i < k + 1 && TagOf(ms[i]) in g.members && Index(g.members, TagOf(ms[k + 1])) < Index(g.members, TagOf(ms[i]));
      if i > 0 { assert rest[i - 1] == ms[i]; }
    }
    if Misplaced(o, g, idx, rest, k) && !(Index(g.members, TagOf(rest[k])) < idx) {
      var i :| 0 <= i < k && TagOf(rest[i]) in g.members && Index(g.members, TagOf(rest[k])) < Index(g.members, TagOf(rest[i]));
      assert ms[i + 1] == rest[i];
    }
  }

  /** A fault of the tail is one of the list, if nothing is wrong with the head. */
  lemma FaultyTail(
    d: Dict, v: Formats, o: Options, flat: bool, g: GroupDef, lastIdx: nat, idx: nat, ms: seq<Member>, j: nat, e: Rejection)
    requires ms != [] && GoodMember(d, v, o, flat, g, ms[0]) && !Misplaced(o, g, lastIdx, ms, 0)
    requires idx == if TagOf(ms[0]) in g.members then Index(g.members, TagOf(ms[0])) else lastIdx
    requires j < |ms[1..]| && FaultyAt(d, v, o, flat, g, idx, ms[1..], j, e)
    ensures FaultyAt(d, v, o, flat, g, lastIdx, ms, j + 1, e)
  {
    hide GoodMember;
    hide FaultyMember;
    hide Misplaced;
    var rest := ms[1..];
    assert ms[j + 1] == rest[j];
    MisplacedTail(o, g, lastIdx, idx, ms, j);
    forall k | 0 <= k < j + 1 ensures GoodMember(d, v, o, flat, g, ms[k]) && !Misplaced(o, g, lastIdx, ms, k) {
      if k > 0 {
        assert ms[k] == rest[k - 1];
        MisplacedTail(o, g, lastIdx, idx, ms, k - 1);
      }
    }
  }

  lemma GoodCons(d: Dict, v: Formats, o: Options, flat: bool, g: GroupDef, lastIdx: nat, idx: nat, ms: seq<Member>)
    requires ms != [] && GoodMember(d, v, o, flat, g, ms[0]) && !Misplaced(o, g, lastIdx, ms, 0)
    requires idx == if TagOf(ms[0]) in g.members then Index(g.members, TagOf(ms[0])) else lastIdx
    requires GoodMembers(d, v, o, flat, g, idx, ms[1..])
    ensures GoodMembers(d, v, o, flat, g, lastIdx, ms)
  {
    hide GoodMember;
    hide Misplaced;
    var rest := ms[1..];
    forall k | 0 <= k < |ms| ensures GoodMember(d, v, o, flat, g, ms[k]) && !Misplaced(o, g, lastIdx, ms, k) {
      if k > 0 {
        assert ms[k] == rest[k - 1];
        MisplacedTail(o, g, lastIdx, idx, ms, k - 1);
      }
    }
  }

  ghost function Checked(flat: bool, entry: FieldMap): (ms: seq<Member>) {
    if flat && entry.members != [] then entry.members[1..] else entry.members
  }

  ghost predicate DelimiterPasses(d: Dict, v: Formats, o: Options, flat: bool, g: GroupDef, entry: FieldMap) {
    flat && entry.members != [] && entry.members[0].FieldMember? ==> ValidValue(d, v, o, g, entry.members[0].field)
  }

  lemma FaultOfMember(d: Dict, v: Formats, o: Options, flat: bool, g: GroupDef, entry: FieldMap, j: nat, e: Rejection)
    requires DelimiterPasses(d, v, o, flat, g, entry) && j < |Checked(flat, entry)|
    requires FaultyAt(d, v, o, flat, g, 0, Checked(flat, entry), j, e)
    ensures FaultyEntry(d, v, o, flat, g, entry, e)
  {
    hide GoodMember;
    hide Misplaced;
    hide ValidValue;
    var ms := Checked(flat, entry);
    assert FaultyMembers(d, v, o, flat, g, ms, e);
  }

  lemma FaultOfRequired(d: Dict, v: Formats, o: Options, flat: bool, g: GroupDef, entry: FieldMap, i: nat)
    requires DelimiterPasses(d, v, o, flat, g, entry) && GoodMembers(d, v, o, flat, g, 0, Checked(flat, entry))
    requires o.checkRequiredFields && i < |g.required| && FirstLack(d, flat, entry.members, g.required, i)
    ensures FaultyEntry(d, v, o, flat, g, entry, Session(RequiredTagMissing, g.required[i]))
  {
    hide FaultyMember;
    hide GoodMember;
    hide Misplaced;
    hide ValidValue;
    hide FirstLack;
  }

  // ----- the structured validator

  lemma {:induction false} CheckMembersFaulty(
    d: Dict, v: Formats, o: Options, g: GroupDef, ms: seq<Member>, lastIdx: nat, next: Option<Tag>) returns (j: nat)
    ensures var x := CheckMembers(d, v, o, g, ms, lastIdx, next);
            if x.Some? then j < |ms| && FaultyAt(d, v, o, false, g, lastIdx, ms, j, x.value)
            else GoodMembers(d, v, o, false, g, lastIdx, ms)
    decreases ms, 1
  {
    hide FaultyMember;
    hide AcceptedMember;
    hide CheckMember;
    j := 0;
    if ms != [] {
      var x := CheckMembers(d, v, o, g, ms, lastIdx, next);
      var t := TagOf(ms[0]);
      var idx := if t in g.members then Index(g.members, t) else lastIdx;
      if t in g.members {
        CheckMemberFaulty(d, v, o, g, ms[0], Following(ms, next));
      }
      if t !in g.members || (!(o.validateUnorderedGroupFields && idx < lastIdx) && CheckMember(d, v, o, g, ms[0], Following(ms, next)).None?) {
        j := CheckMembersFaulty(d, v, o, g, ms[1..], idx, next);
        if x.Some? {
          FaultyTail(d, v, o, false, g, lastIdx, idx, ms, j, x.value);
          j := j + 1;
        } else {
          GoodCons(d, v, o, false, g, lastIdx, idx, ms);
        }
      }
    }
  }

  lemma {:induction false} CheckMemberFaulty(d: Dict, v: Formats, o: Options, g: GroupDef, m: Member, next: Option<Tag>)
    ensures var x := CheckMember(d, v, o, g, m, next);
            if x.Some? then FaultyMember(d, v, o, false, g, m, x.value) else AcceptedMember(d, v, o, g, m)
    decreases m, 1
  {
    hide EntryFieldValue;
    hide ValidValue;
    hide ValueFault;
    CheckMemberAccepts(d, v, o, g, m, next);
    match m
    case GroupMember(ct, _, _) => if ct in d.groups { CheckGroupFaulty(d, v, o, m, next); }
    case FieldMember(f) => ValueCheckIsValidity(d, v, o, g, f);
  }

  lemma {:induction false} FirstMissingLacks(required: seq<Tag>, seen: seq<Tag>) returns (i: nat)
    ensures var x := FirstMissing(required, seen);
            x.Some? ==> i < |required| && x.value == required[i] && x.value !in seen && forall j :: 0 <= j < i ==> required[j] in seen
  {
    i := 0;
    if required != [] && required[0] in seen {
      i := FirstMissingLacks(required[1..], seen);
      assert forall j :: 1 <= j < |required| ==> required[j] == required[1..][j - 1];
      i := i + 1;
    }
  }

  lemma {:induction false} FirstAbsentLacks(d: Dict, required: seq<Tag>, ms: seq<Member>) returns (i: nat)
    ensures var x := FirstAbsent(d, required, ms);
            x.Some? ==> i < |required| && x.value == required[i] && FirstLack(d, false, ms, required, i)
  {
    hide Supplied;
    hide PresentInEntry;
    i := 0;
    if required != [] {
      PresentIsSupplied(d, ms, required[0]);
      if PresentInEntry(d, ms, required[0]) {
        i := FirstAbsentLacks(d, required[1..], ms);
        assert forall j :: 1 <= j < |required| ==> required[j] == required[1..][j - 1];
        i := i + 1;
      }
    }
  }

  lemma {:induction false} CheckEntryFaulty(d: Dict, v: Formats, o: Options, g: GroupDef, entry: FieldMap, next: Option<Tag>)
    ensures var x := CheckEntry(d, v, o, g, entry, next);
            if x.Some? then FaultyEntry(d, v, o, false, g, entry, x.value) else AcceptedEntry(d, v, o, g, entry)
    decreases entry, 1
  {
    hide CheckMembers;
    hide AcceptedEntry;
    hide FaultyEntry;
    hide FaultyAt;
    hide GoodMembers;
    hide FirstLack;
    CheckEntryAccepts(d, v, o, g, entry, next);
    var j := CheckMembersFaulty(d, v, o, g, entry.members, 0, next);
    var x := CheckMembers(d, v, o, g, entry.members, 0, next);
    if x.Some? {
      FaultOfMember(d, v, o, false, g, entry, j, x.value);
    } else {
      var i := FirstAbsentLacks(d, g.required, entry.members);
      if CheckEntry(d, v, o, g, entry, next).Some? { FaultOfRequired(d, v, o, false, g, entry, i); }
    }
  }

  lemma {:induction false} CheckEntriesFaulty(
    d: Dict, v: Formats, o: Options, g: GroupDef, entries: seq<FieldMap>, next: Option<Tag>) returns (i: nat)
    ensures var x := CheckEntries(d, v, o, g, entries, next);
            x.Some? ==> i < |entries| && FaultyEntry(d, v, o, false, g, entries[i], x.value)
                        && forall j :: 0 <= j < i ==> AcceptedEntry(d, v, o, g, entries[j])
    decreases entries, 1
  {
    hide CheckEntry;
    hide FaultyEntry;
    hide AcceptedEntry;
    i := 0;
    if entries != [] {
      CheckEntryFaulty(d, v, o, g, entries[0], next);
      if CheckEntry(d, v, o, g, entries[0], next).None? {
        i := CheckEntriesFaulty(d, v, o, g, entries[1..], next);
        assert forall j :: 1 <= j < |entries| ==> entries[j] == entries[1..][j - 1];
        i := i + 1;
      }
    }
  }

  /** The structured validator names the first fault of the tree. */
  lemma {:induction false} CheckGroupFaulty(d: Dict, v: Formats, o: Options, m: Member, next: Option<Tag>)
    requires m.GroupMember? && m.countTag in d.groups
    ensures var x := CheckGroup(d, v, o, m.entries, m.declared, next, m.countTag);
            x.Some? ==> FaultyGroup(d, v, o, false, m, x.value)
    decreases m, 0
  {
    hide FaultyEntry;
    hide AcceptedEntry;
    hide CheckEntries;
    var i := CheckEntriesFaulty(d, v, o, d.groups[m.countTag], m.entries, next);
  }

  // ----- the flat validator

  lemma {:induction false} ScanMembersFaulty(
    d: Dict, v: Formats, o: Options, body: seq<Field>, pos: nat, g: GroupDef, lastIdx: nat, seen: seq<Tag>, budget: nat)
    returns (j: nat)
    requires pos <= |body| && budget > 0
    requires MembersAt(d.groups, body, pos, g, budget).Built?
    ensures var r, ms := ScanMembers(d, v, o, body, pos, g, lastIdx, seen), MembersAt(d.groups, body, pos, g, budget).value;
            if r.Err? then j < |ms| && FaultyAt(d, v, o, true, g, lastIdx, ms, j, r.error)
            else GoodMembers(d, v, o, true, g, lastIdx, ms)
    decreases |body| - pos, 2
  {
    hide FaultyMember;
    hide ScanMember;
    hide ConformsMember;
    j := 0;
    if pos < |body| && body[pos].tag != g.delimiter && body[pos].tag in g.members {
      var t, idx := body[pos].tag, Index(g.members, body[pos].tag);
      var one := MemberAt(d.groups, body, pos, budget - 1);
      var rest := MembersAt(d.groups, body, one.pos, g, budget).value;
      var ms := [one.value] + rest;
      assert ms[1..] == rest && ms[0] == one.value;
      var r := ScanMembers(d, v, o, body, pos, g, lastIdx, seen);
      ScanMemberFaulty(d, v, o, body, pos, g, budget);
      ScanMemberConforms(d, v, o, body, pos, g, budget);
      if !(o.validateUnorderedGroupFields && idx < lastIdx) && ScanMember(d, v, o, body, pos, g).Ok? {
        j := ScanMembersFaulty(d, v, o, body, one.pos, g, idx, seen + [t], budget);
        if r.Err? {
          FaultyTail(d, v, o, true, g, lastIdx, idx, ms, j, r.error);
          j := j + 1;
        } else {
          GoodCons(d, v, o, true, g, lastIdx, idx, ms);
        }
      }
    }
  }

  lemma {:induction false} ScanMemberFaulty(
    d: Dict, v: Formats, o: Options, body: seq<Field>, pos: nat, g: GroupDef, budget: nat)
    requires pos < |body| && body[pos].tag != g.delimiter && body[pos].tag in g.members && budget > 0
    requires MemberAt(d.groups, body, pos, budget - 1).Built?
    ensures var r := ScanMember(d, v, o, body, pos, g);
            r.Err? ==> FaultyMember(d, v, o, true, g, MemberAt(d.groups, body, pos, budget - 1).value, r.error)
    decreases |body| - pos, 1
  {
    hide EntryFieldValue;
    hide ValidValue;
    hide ValueFault;
    hide FaultyGroup;
    if body[pos].tag in d.groups {
      ScanGroupFaulty(d, v, o, body, pos, body[pos].tag, budget - 1);
    } else {
      ValueCheckIsValidity(d, v, o, g, body[pos]);
    }
  }

  lemma {:induction false} ScanEntryFaulty(
    d: Dict, v: Formats, o: Options, body: seq<Field>, pos: nat, g: GroupDef, budget: nat)
    requires pos < |body| && body[pos].tag == g.delimiter && budget > 0
    requires MembersAt(d.groups, body, pos + 1, g, budget).Built?
    ensures var r := ScanEntry(d, v, o, body, pos, g);
            r.Err? ==> FaultyEntry(d, v, o, true, g,
                         FieldMap([FieldMember(body[pos])] + MembersAt(d.groups, body, pos + 1, g, budget).value), r.error)
    decreases |body| - pos, 1
  {
    hide EntryFieldValue;
    hide ValidValue;
    hide ValueFault;
    hide ScanMembers;
    hide FaultyAt;
    hide GoodMembers;
    var ms := MembersAt(d.groups, body, pos + 1, g, budget).value;
    var entry := FieldMap([FieldMember(body[pos])] + ms);
    assert entry.members[1..] == ms;
    var scanned := ScanMembers(d, v, o, body, pos + 1, g, 0, [g.delimiter]);
    ValueCheckIsValidity(d, v, o, g, body[pos]);
    if EntryFieldValue(d, v, o, g, body[pos]).None? {
      hide FaultyEntry;
      var j := ScanMembersFaulty(d, v, o, body, pos + 1, g, 0, [g.delimiter], budget);
      if scanned.Err? {
        FaultOfMember(d, v, o, true, g, entry, j, scanned.error);
      } else {
        ScanMembersConform(d, v, o, body, pos + 1, g, 0, [g.delimiter], budget);
        assert Tags(entry.members) == [g.delimiter] + Tags(ms);
        var i := FirstMissingLacks(g.required, scanned.value.1);
        if ScanEntry(d, v, o, body, pos, g).Err? { FaultOfRequired(d, v, o, true, g, entry, i); }
      }
    }
  }

  lemma {:induction false} ScanEntriesFaulty(
    d: Dict, v: Formats, o: Options, body: seq<Field>, pos: nat, tag: Tag, declared: int, found: nat, budget: nat)
    returns (i: nat)
    requires pos <= |body| && tag in d.groups && budget > 0
    requires EntriesAt(d.groups, body, pos, d.groups[tag], budget).Built?
    ensures var entries, g := EntriesAt(d.groups, body, pos, d.groups[tag], budget).value, d.groups[tag];
            var r := ScanEntries(d, v, o, body, pos, tag, declared, found);
            r.Err? ==>
              && i <= |entries| && (forall j :: 0 <= j < i ==> ConformsEntry(d, v, o, g, entries[j]))
              && if i < |entries| then FaultyEntry(d, v, o, true, g, entries[i], r.error)
                 else && declared != found + |entries|
                      && (|| r.error == Session(IncorrectNumInGroupCount, tag)
                          || (declared > found + |entries| && o.firstFieldInGroupIsDelimiter
                              && r.error == Session(RepeatingGroupFieldsOutOfOrder, g.delimiter)))
    decreases |body| - pos, 2
  {
    hide FaultyEntry;
    hide ScanEntry;
    hide ConformsEntry;
    var g := d.groups[tag];
    i := 0;
    if pos < |body| && body[pos].tag == g.delimiter {
      var b := MembersAt(d.groups, body, pos + 1, g, budget);
      var rest := EntriesAt(d.groups, body, b.pos, g, budget).value;
      var entries := [FieldMap([FieldMember(body[pos])] + b.value)] + rest;
      ScanEntryFaulty(d, v, o, body, pos, g, budget);
      ScanEntryConforms(d, v, o, body, pos, g, budget);
      if ScanEntry(d, v, o, body, pos, g).Ok? {
        i := ScanEntriesFaulty(d, v, o, body, b.pos, tag, declared, found + 1, budget);
        assert forall j :: 1 <= j < |entries| ==> entries[j] == rest[j - 1];
        i := i + 1;
      }
    }
  }

  /** The flat validator names the first fault of the tree read where it scans. */
  lemma {:induction false} ScanGroupFaulty(
    d: Dict, v: Formats, o: Options, body: seq<Field>, pos: nat, tag: Tag, budget: nat)
    requires pos < |body| && tag in d.groups && GroupAt(d.groups, body, pos, tag, budget).Built?
    ensures var r := ScanGroup(d, v, o, body, pos, tag);
            r.Err? ==> FaultyGroup(d, v, o, true, GroupAt(d.groups, body, pos, tag, budget).value, r.error)
    decreases |body| - pos, 0
  {
    hide FaultyEntry;
    hide ConformsEntry;
    hide ScanEntries;
    var count := AsInt(body[pos]);
    if count.Some? {
      var i := ScanEntriesFaulty(d, v, o, body, pos + 1, tag, count.value, 0, budget);
    }
  }

  // ----- a count that is wrong and nothing else

  lemma {:induction false} ScanMiscounted(
    d: Dict, v: Formats, o: Options, body: seq<Field>, pos: nat, tag: Tag, declared: int, found: nat, budget: nat)
    requires pos <= |body| && tag in d.groups && budget > 0 && EntriesAt(d.groups, body, pos, d.groups[tag], budget).Built?
    requires var b := EntriesAt(d.groups, body, pos, d.groups[tag], budget);
             declared != found + |b.value| && ConformsEntries(d, v, o, d.groups[tag], b.value)
    ensures var b, g := EntriesAt(d.groups, body, pos, d.groups[tag], budget), d.groups[tag];
            ScanEntries(d, v, o, body, pos, tag, declared, found) ==
              Err(if o.firstFieldInGroupIsDelimiter && declared > found + |b.value| && b.pos < |body|
                     && (body[b.pos].tag in g.members || body[b.pos].tag in d.groups)
                  then Session(RepeatingGroupFieldsOutOfOrder, g.delimiter)
                  else Session(IncorrectNumInGroupCount, tag))
    decreases |body| - pos
  {
    hide ConformsEntry;
    hide ScanEntry;
    var g := d.groups[tag];
    if pos < |body| && body[pos].tag == g.delimiter {
      var b := MembersAt(d.groups, body, pos + 1, g, budget);
      var first, rest := FieldMap([FieldMember(body[pos])] + b.value), EntriesAt(d.groups, body, b.pos, g, budget).value;
      ConformsEntriesCons(d, v, o, g, first, rest);
      ScanEntryConforms(d, v, o, body, pos, g, budget);
      ScanMiscounted(d, v, o, body, b.pos, tag, declared, found + 1, budget);
    }
  }

  /** What both validators say of a group whose only fault is its count, by what follows it: entries are missing and a
      member follows, so that an entry seems to lack its delimiter, or the number is wrong. They do not draw the line
      alike: only the flat one looks at any count tag that follows, only the structured one at a negative count. */
  lemma CountMismatch(d: Dict, v: Formats, o: Options, body: seq<Field>, pos: nat, tag: Tag, budget: nat)
    requires pos < |body| && tag in d.groups && GroupAt(d.groups, body, pos, tag, budget).Built?
    requires var m := GroupAt(d.groups, body, pos, tag, budget).value;
             && m.declared.Some? && m.declared.value != |m.entries|
             && ConformsEntries(d, v, o, d.groups[tag], m.entries)
    ensures var b, g := GroupAt(d.groups, body, pos, tag, budget), d.groups[tag];
            var n, k := b.value.declared.value, |b.value.entries|;
            var next := if b.pos < |body| then Some(body[b.pos].tag) else None;
            var apart := o.firstFieldInGroupIsDelimiter && next.Some?;
            && ScanGroup(d, v, o, body, pos, tag) ==
                 Err(if apart && n > k && (next.value in g.members || next.value in d.groups)
                     then Session(RepeatingGroupFieldsOutOfOrder, g.delimiter) else Session(IncorrectNumInGroupCount, tag))
            && CheckGroup(d, v, o, b.value.entries, b.value.declared, next, tag) ==
                 Some(if apart && (n > k || n < 0) && next.value in g.members
                      then Session(RepeatingGroupFieldsOutOfOrder, g.delimiter) else Session(IncorrectNumInGroupCount, tag))
  {
    hide ConformsEntries;
    hide ScanEntries;
    ScanMiscounted(d, v, o, body, pos + 1, tag, AsInt(body[pos]).value, 0, budget);
  }
}
