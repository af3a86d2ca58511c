/** Structuring and flattening against each other: what `restructure_groups` keeps. */
module GroupingRoundTrip {
  import opened Decimal
  import opened FieldMaps
  import opened Dictionary
  import opened Grouping

  /** The tag a reader would meet next. */
  function NextTag(toks: seq<Field>, pos: nat): (t: Option<Tag>) {
    if pos < |toks| then Some(toks[pos].tag) else None
  }

  /** A tree the greedy reader can only read back as itself when a field tagged `next` follows:
      entries are delimiter-led and hold member tags, exactly the count tags are groups, nesting stays
      within `budget`, and no field that follows a group could still be taken for a part of it. */
  ghost predicate FitMember(groups: Groups, m: Member, next: Option<Tag>, budget: nat)
    decreases m
  {
    match m
    case FieldMember(f) => f.tag !in groups
    case GroupMember(ct, entries, declared) =>
      && ct in groups && budget > 0
      && -I64_MAX - 1 <= CountToEmit(entries, declared) <= I64_MAX
      && FitEntries(groups, groups[ct], entries, next, budget)
  }

  ghost predicate FitEntries(groups: Groups, g: GroupDef, entries: seq<FieldMap>, next: Option<Tag>, budget: nat)
    requires budget > 0
    decreases entries
  {
    if entries == [] then next != Some(g.delimiter)
    else
      && FitEntry(groups, g, entries[0], if |entries| > 1 then Some(g.delimiter) else next, budget)
      && FitEntries(groups, g, entries[1..], next, budget)
  }

  ghost predicate FitEntry(groups: Groups, g: GroupDef, entry: FieldMap, next: Option<Tag>, budget: nat)
    requires budget > 0
    decreases entry
  {
    && |entry.members| > 0 && entry.members[0].FieldMember? && entry.members[0].field.tag == g.delimiter
    && FitMembers(groups, g, entry.members[1..], next, budget)
  }

  ghost predicate FitMembers(groups: Groups, g: GroupDef, ms: seq<Member>, next: Option<Tag>, budget: nat)
    requires budget > 0
    decreases ms
  {
    if ms == [] then next.Some? ==> next.value == g.delimiter || next.value !in g.members
    else
      && TagOf(ms[0]) != g.delimiter && TagOf(ms[0]) in g.members
      && FitMember(groups, ms[0], if |ms| > 1 then Some(TagOf(ms[1])) else next, budget - 1)
      && FitMembers(groups, g, ms[1..], next, budget)
  }

  ghost predicate FitSection(groups: Groups, ms: seq<Member>, budget: nat) {
    ms != [] ==>
      && FitMember(groups, ms[0], if |ms| > 1 then Some(TagOf(ms[1])) else None, budget)
      && FitSection(groups, ms[1..], budget)
  }

  /** The same tree with every group's count recorded. */
  function DeclareMember(m: Member): (r: Member)
    ensures TagOf(r) == TagOf(m)
    decreases m
  {
    match m
    case FieldMember(_) => m
    case GroupMember(ct, entries, declared) =>
      GroupMember(ct, DeclareEntries(entries), Some(CountToEmit(entries, declared)))
  }

  function DeclareEntries(entries: seq<FieldMap>): (r: seq<FieldMap>)
    ensures |r| == |entries|
    decreases entries
  {
    if entries == [] then [] else [FieldMap(DeclareMembers(entries[0].members))] + DeclareEntries(entries[1..])
  }

  function DeclareMembers(ms: seq<Member>): (r: seq<Member>)
    ensures |r| == |ms|
    decreases ms
  {
    if ms == [] then [] else [DeclareMember(ms[0])] + DeclareMembers(ms[1..])
  }

  /** Every group in the tree carries the count it was read with: no count was unreadable. */
  predicate CountedMember(m: Member)
    decreases m
  {
    match m
    case FieldMember(_) => true
    case GroupMember(_, entries, declared) => declared.Some? && CountedEntries(entries)
  }

  predicate CountedEntries(entries: seq<FieldMap>)
    decreases entries
  {
    entries != [] ==> CountedMembers(entries[0].members) && CountedEntries(entries[1..])
  }

  predicate CountedMembers(ms: seq<Member>)
    decreases ms
  {
    ms != [] ==> CountedMember(ms[0]) && CountedMembers(ms[1..])
  }

  // ----- the trees the reader builds are fit

  lemma {:induction false} MemberAtFit(groups: Groups, toks: seq<Field>, pos: nat, budget: nat)
    requires pos < |toks| <= I64_MAX && MemberAt(groups, toks, pos, budget).Built?
    ensures var b := MemberAt(groups, toks, pos, budget);
            FitMember(groups, b.value, NextTag(toks, b.pos), budget)
    decreases |toks| - pos, 0
  {
    if toks[pos].tag in groups {
      EntriesAtFit(groups, toks, pos + 1, groups[toks[pos].tag], budget);
    }
  }

  lemma {:induction false} EntriesAtFit(groups: Groups, toks: seq<Field>, pos: nat, g: GroupDef, budget: nat)
    requires pos <= |toks| <= I64_MAX && budget > 0
    requires EntriesAt(groups, toks, pos, g, budget).Built?
    ensures var b := EntriesAt(groups, toks, pos, g, budget);
            FitEntries(groups, g, b.value, NextTag(toks, b.pos), budget) && |b.value| <= b.pos - pos
    decreases |toks| - pos, 1
  {
    if pos < |toks| && toks[pos].tag == g.delimiter {
      var b := MembersAt(groups, toks, pos + 1, g, budget);
      MembersAtFit(groups, toks, pos + 1, g, budget);
      EntriesAtFit(groups, toks, b.pos, g, budget);
      var rest := EntriesAt(groups, toks, b.pos, g, budget).value;
      var entry := FieldMap([FieldMember(toks[pos])] + b.value);
      assert entry.members[1..] == b.value;
      assert ([entry] + rest)[1..] == rest;
    }
  }

  lemma {:induction false} MembersAtFit(groups: Groups, toks: seq<Field>, pos: nat, g: GroupDef, budget: nat)
    requires pos <= |toks| <= I64_MAX && budget > 0
    requires MembersAt(groups, toks, pos, g, budget).Built?
    ensures var b := MembersAt(groups, toks, pos, g, budget);
            && FitMembers(groups, g, b.value, NextTag(toks, b.pos), budget)
            && (b.value != [] ==> NextTag(toks, pos) == Some(TagOf(b.value[0])))
            && (b.value == [] ==> b.pos == pos)
    decreases |toks| - pos, 1
  {
    if pos < |toks| && toks[pos].tag != g.delimiter && toks[pos].tag in g.members {
      MemberAtFit(groups, toks, pos, budget - 1);
      var p := MemberAt(groups, toks, pos, budget - 1).pos;
      MembersAtFit(groups, toks, p, g, budget);
      var b := MembersAt(groups, toks, pos, g, budget);
      assert b.value[1..] == MembersAt(groups, toks, p, g, budget).value;
    }
  }

  lemma {:induction false} SectionAtFit(groups: Groups, toks: seq<Field>, pos: nat, budget: nat)
    requires pos <= |toks| <= I64_MAX
    requires SectionAt(groups, toks, pos, budget).Built?
    ensures var ms := SectionAt(groups, toks, pos, budget).value;
            && FitSection(groups, ms, budget)
            && (ms != [] ==> NextTag(toks, pos) == Some(TagOf(ms[0])))
            && (ms == [] ==> pos == |toks|)
    decreases |toks| - pos
  {
    if pos < |toks| {
      MemberAtFit(groups, toks, pos, budget);
      var p := MemberAt(groups, toks, pos, budget).pos;
      SectionAtFit(groups, toks, p, budget);
      var ms := SectionAt(groups, toks, pos, budget).value;
      assert ms[1..] == SectionAt(groups, toks, p, budget).value;
    }
  }

  // ----- fit trees are read back as themselves

  /** `f` stands in `toks` at `pos`. */
  predicate At(toks: seq<Field>, pos: nat, f: seq<Field>) {
    pos + |f| <= |toks| && toks[pos..pos + |f|] == f
  }

  lemma AtBound(toks: seq<Field>, pos: nat, s: seq<Field>)
    requires At(toks, pos, s)
    ensures pos + |s| <= |toks|
  {
  }

  lemma AtSplit(toks: seq<Field>, pos: nat, a: seq<Field>, b: seq<Field>)
    requires At(toks, pos, a + b)
    ensures At(toks, pos, a) && At(toks, pos + |a|, b)
  {
    var s := toks[pos..pos + |a + b|];
    assert s[..|a|] == a && s[|a|..] == b;
    assert toks[pos..pos + |a|] == s[..|a|];
    assert toks[pos + |a|..pos + |a| + |b|] == s[|a|..];
  }

  lemma AtHead(toks: seq<Field>, pos: nat, f: seq<Field>)
    requires At(toks, pos, f) && |f| > 0
    ensures pos < |toks| && toks[pos] == f[0]
  {
    assert toks[pos..pos + |f|][0] == toks[pos];
  }

  lemma NextIsRest(toks: seq<Field>, pos: nat, rest: seq<Member>)
    requires At(toks, pos, FlattenMembers(rest))
    ensures rest != [] ==> NextTag(toks, pos) == Some(TagOf(rest[0]))
  {
    if rest != [] {
      AtHead(toks, pos, FlattenMembers(rest));
    }
  }

  lemma {:induction false} ReadMemberBack(groups: Groups, toks: seq<Field>, pos: nat, m: Member, budget: nat)
    requires At(toks, pos, FlattenMember(m))
    requires FitMember(groups, m, NextTag(toks, pos + |FlattenMember(m)|), budget)
    ensures MemberAt(groups, toks, pos, budget) == Built(pos + |FlattenMember(m)|, DeclareMember(m))
    decreases m, 0
  {
    AtHead(toks, pos, FlattenMember(m));
    if m.GroupMember? {
      var n := CountToEmit(m.entries, m.declared);
      ParseI64Print(n);
      AtSplit(toks, pos, [Field(m.countTag, PrintInt(n))], FlattenEntries(m.entries));
      ReadEntriesBack(groups, toks, pos + 1, groups[m.countTag], m.entries, budget);
    }
  }

  /** What follows an entry: the next entry's delimiter, or what follows them all. */
  lemma NextAfterEntry(groups: Groups, toks: seq<Field>, p: nat, g: GroupDef, rest: seq<FieldMap>, next: Option<Tag>, budget: nat)
    requires budget > 0 && At(toks, p, FlattenEntries(rest)) && next == NextTag(toks, p + |FlattenEntries(rest)|)
    requires FitEntries(groups, g, rest, next, budget)
    ensures NextTag(toks, p) == if rest != [] then Some(g.delimiter) else next
  {
    hide FlattenMembers;
    hide FitMembers;
    if rest == [] {
      assert FlattenEntries(rest) == [];
    } else {
      assert FitEntry(groups, g, rest[0], if |rest| > 1 then Some(g.delimiter) else next, budget);
      AtSplit(toks, p, FlattenMembers(rest[0].members), FlattenEntries(rest[1..]));
      NextIsRest(toks, p, rest[0].members);
    }
  }

  lemma EntriesAtStep(groups: Groups, toks: seq<Field>, pos: nat, g: GroupDef, budget: nat)
    requires pos < |toks| && budget > 0 && toks[pos].tag == g.delimiter
    requires MembersAt(groups, toks, pos + 1, g, budget).Built?
    requires EntriesAt(groups, toks, MembersAt(groups, toks, pos + 1, g, budget).pos, g, budget).Built?
    ensures var b := MembersAt(groups, toks, pos + 1, g, budget);
            var c := EntriesAt(groups, toks, b.pos, g, budget);
            EntriesAt(groups, toks, pos, g, budget) == Built(c.pos, [FieldMap([FieldMember(toks[pos])] + b.value)] + c.value)
  {
    hide MembersAt;
  }

  lemma {:induction false} ReadEntriesBack(
    groups: Groups, toks: seq<Field>, pos: nat, g: GroupDef, entries: seq<FieldMap>, budget: nat)
    requires budget > 0 && At(toks, pos, FlattenEntries(entries))
    requires FitEntries(groups, g, entries, NextTag(toks, pos + |FlattenEntries(entries)|), budget)
    ensures EntriesAt(groups, toks, pos, g, budget)
            == Built(pos + |FlattenEntries(entries)|, DeclareEntries(entries))
    decreases entries, 1
  {
    hide At;
    hide MembersAt;
    hide FlattenMembers;
    hide DeclareMembers;
    hide FitMembers;
    AtBound(toks, pos, FlattenEntries(entries));
    if entries != [] {
      hide EntriesAt;
      hide NextTag;
      var ms, rest := entries[0].members, entries[1..];
      AtSplit(toks, pos, FlattenMembers(ms), FlattenEntries(rest));
      var p := pos + |FlattenMembers(ms)|;
      NextAfterEntry(groups, toks, p, g, rest, NextTag(toks, pos + |FlattenEntries(entries)|), budget);
      ReadEntryBack(groups, toks, pos, g, entries[0], budget);
      ReadEntriesBack(groups, toks, p, g, rest, budget);
      EntriesAtStep(groups, toks, pos, g, budget);
    }
  }

  lemma {:induction false} ReadEntryBack(
    groups: Groups, toks: seq<Field>, pos: nat, g: GroupDef, entry: FieldMap, budget: nat)
    requires budget > 0 && At(toks, pos, FlattenMembers(entry.members))
    requires FitEntry(groups, g, entry, NextTag(toks, pos + |FlattenMembers(entry.members)|), budget)
    ensures pos < |toks| && toks[pos].tag == g.delimiter
    ensures var b := MembersAt(groups, toks, pos + 1, g, budget);
            && b.Built? && b.pos == pos + |FlattenMembers(entry.members)|
            && [FieldMember(toks[pos])] + b.value == DeclareMembers(entry.members)
    decreases entry, 0
  {
    var ms := entry.members;
    AtHead(toks, pos, FlattenMembers(ms));
    AtSplit(toks, pos, FlattenMember(ms[0]), FlattenMembers(ms[1..]));
    ReadMembersBack(groups, toks, pos + 1, g, ms[1..], budget);
  }

  lemma {:induction false} ReadMembersBack(
    groups: Groups, toks: seq<Field>, pos: nat, g: GroupDef, ms: seq<Member>, budget: nat)
    requires budget > 0 && At(toks, pos, FlattenMembers(ms))
    requires FitMembers(groups, g, ms, NextTag(toks, pos + |FlattenMembers(ms)|), budget)
    ensures MembersAt(groups, toks, pos, g, budget) == Built(pos + |FlattenMembers(ms)|, DeclareMembers(ms))
    decreases ms, 1
  {
    hide At;
    AtBound(toks, pos, FlattenMembers(ms));
    hide FitMember;
    hide FlattenMember;
    hide DeclareMember;
    hide MemberAt;
    if ms != [] {
      var head, rest := FlattenMember(ms[0]), ms[1..];
      AtSplit(toks, pos, head, FlattenMembers(rest));
      AtHead(toks, pos, head);
      NextIsRest(toks, pos + |head|, rest);
      ReadMemberBack(groups, toks, pos, ms[0], budget - 1);
      ReadMembersBack(groups, toks, pos + |head|, g, rest, budget);
    }
  }

  lemma {:induction false} ReadSectionBack(groups: Groups, toks: seq<Field>, pos: nat, ms: seq<Member>, budget: nat)
    requires At(toks, pos, FlattenMembers(ms)) && pos + |FlattenMembers(ms)| == |toks|
    requires FitSection(groups, ms, budget)
    ensures SectionAt(groups, toks, pos, budget) == Built(|toks|, DeclareMembers(ms))
    decreases ms
  {
    hide At;
    hide FitMember;
    hide FlattenMember;
    hide DeclareMember;
    hide MemberAt;
    if ms != [] {
      var head, rest := FlattenMember(ms[0]), ms[1..];
      AtSplit(toks, pos, head, FlattenMembers(rest));
      NextIsRest(toks, pos + |head|, rest);
      ReadMemberBack(groups, toks, pos, ms[0], budget);
      ReadSectionBack(groups, toks, pos + |head|, rest, budget);
    }
  }

  /** Flattening and structuring again, as `restructure_groups` does. */
  function Restructure(groups: Groups, ms: seq<Member>, budget: nat): (r: Built<seq<Member>>) {
    SectionAt(groups, FlattenMembers(ms), 0, budget)
  }

  /** Restructuring a structured section only records counts that could not be read before. */
  lemma RestructureStructured(groups: Groups, toks: seq<Field>, budget: nat)
    requires |toks| <= I64_MAX && SectionAt(groups, toks, 0, budget).Built?
    ensures var ms := SectionAt(groups, toks, 0, budget).value;
            Restructure(groups, ms, budget) == Built(|FlattenMembers(ms)|, DeclareMembers(ms))
  {
    SectionAtFit(groups, toks, 0, budget);
    var ms := SectionAt(groups, toks, 0, budget).value;
    assert FlattenMembers(ms)[0..|FlattenMembers(ms)|] == FlattenMembers(ms);
    ReadSectionBack(groups, FlattenMembers(ms), 0, ms, budget);
  }

  /** So restructuring is a no-op on a structured section exactly when every count in it was readable. */
  lemma RestructureIdempotent(groups: Groups, toks: seq<Field>, budget: nat)
    requires |toks| <= I64_MAX && SectionAt(groups, toks, 0, budget).Built?
    ensures var ms := SectionAt(groups, toks, 0, budget).value;
            Restructure(groups, ms, budget) == Built(|FlattenMembers(ms)|, ms) <==> CountedMembers(ms)
  {
    RestructureStructured(groups, toks, budget);
    DeclareIsIdentity(SectionAt(groups, toks, 0, budget).value);
  }

  lemma {:induction false} DeclareIsIdentity(ms: seq<Member>)
    ensures DeclareMembers(ms) == ms <==> CountedMembers(ms)
    decreases ms, 1
  {
    if ms != [] {
      var r := DeclareMembers(ms);
      assert r[0] == DeclareMember(ms[0]) && r[1..] == DeclareMembers(ms[1..]);
      assert ms == [ms[0]] + ms[1..];
      DeclareIsIdentity(ms[1..]);
      if ms[0].GroupMember? {
        DeclareEntriesIsIdentity(ms[0].entries);
      }
    }
  }

  lemma {:induction false} DeclareEntriesIsIdentity(entries: seq<FieldMap>)
    ensures DeclareEntries(entries) == entries <==> CountedEntries(entries)
    decreases entries, 0
  {
    if entries != [] {
      var r := DeclareEntries(entries);
      assert r[0] == FieldMap(DeclareMembers(entries[0].members)) && r[1..] == DeclareEntries(entries[1..]);
      assert entries == [entries[0]] + entries[1..];
      DeclareIsIdentity(entries[0].members);
      DeclareEntriesIsIdentity(entries[1..]);
    }
  }

  // ----- structuring keeps every field in place

  /** `b` is `a`, or a count field `a` rewritten in canonical digits. */
  predicate Rewritten(groups: Groups, a: Field, b: Field) {
    && a.tag == b.tag
    && (a == b || (a.tag in groups && (AsInt(a).Some? ==> b.value == PrintInt(AsInt(a).value))))
  }

  /** `fs` is what stands in `toks` from `pos` to `end`, counts rewritten. */
  ghost predicate Spells(groups: Groups, toks: seq<Field>, pos: nat, end: nat, fs: seq<Field>) {
    && pos + |fs| == end <= |toks|
    && forall i :: 0 <= i < |fs| ==> Rewritten(groups, toks[pos + i], fs[i])
  }

  lemma SpellsAppend(groups: Groups, toks: seq<Field>, pos: nat, mid: nat, end: nat, a: seq<Field>, b: seq<Field>)
    requires Spells(groups, toks, pos, mid, a) && Spells(groups, toks, mid, end, b)
    ensures Spells(groups, toks, pos, end, a + b)
  {
    forall i | 0 <= i < |a + b| ensures Rewritten(groups, toks[pos + i], (a + b)[i]) {
      if i >= |a| {
        assert pos + i == mid + (i - |a|);
      }
    }
  }

  lemma {:induction false} MemberAtSpells(groups: Groups, toks: seq<Field>, pos: nat, budget: nat)
    requires pos < |toks| && MemberAt(groups, toks, pos, budget).Built?
    ensures var b := MemberAt(groups, toks, pos, budget); Spells(groups, toks, pos, b.pos, FlattenMember(b.value))
    decreases |toks| - pos, 0
  {
    var tag := toks[pos].tag;
    if tag in groups {
      var m := MemberAt(groups, toks, pos, budget).value;
      var b := EntriesAt(groups, toks, pos + 1, groups[tag], budget);
      EntriesAtSpells(groups, toks, pos + 1, groups[tag], budget);
      var count := [Field(tag, PrintInt(CountToEmit(m.entries, m.declared)))];
      assert Spells(groups, toks, pos, pos + 1, count);
      SpellsAppend(groups, toks, pos, pos + 1, b.pos, count, FlattenEntries(m.entries));
    }
  }

  lemma {:induction false} EntriesAtSpells(groups: Groups, toks: seq<Field>, pos: nat, g: GroupDef, budget: nat)
    requires pos <= |toks| && budget > 0
    requires EntriesAt(groups, toks, pos, g, budget).Built?
    ensures var b := EntriesAt(groups, toks, pos, g, budget); Spells(groups, toks, pos, b.pos, FlattenEntries(b.value))
    decreases |toks| - pos, 1
  {
    if pos < |toks| && toks[pos].tag == g.delimiter {
      var b := MembersAt(groups, toks, pos + 1, g, budget);
      MembersAtSpells(groups, toks, pos + 1, g, budget);
      EntriesAtSpells(groups, toks, b.pos, g, budget);
      var rest := EntriesAt(groups, toks, b.pos, g, budget);
      var ms := [FieldMember(toks[pos])] + b.value;
      assert ms[1..] == b.value;
      assert ([FieldMap(ms)] + rest.value)[1..] == rest.value;
      assert FlattenMember(ms[0]) == [toks[pos]];
      SpellsAppend(groups, toks, pos, pos + 1, b.pos, [toks[pos]], FlattenMembers(b.value));
      SpellsAppend(groups, toks, pos, b.pos, rest.pos, FlattenMembers(ms), FlattenEntries(rest.value));
    }
  }

  lemma {:induction false} MembersAtSpells(groups: Groups, toks: seq<Field>, pos: nat, g: GroupDef, budget: nat)
    requires pos <= |toks| && budget > 0
    requires MembersAt(groups, toks, pos, g, budget).Built?
    ensures var b := MembersAt(groups, toks, pos, g, budget); Spells(groups, toks, pos, b.pos, FlattenMembers(b.value))
    decreases |toks| - pos, 1
  {
    if pos < |toks| && toks[pos].tag != g.delimiter && toks[pos].tag in g.members {
      MemberAtSpells(groups, toks, pos, budget - 1);
      var p := MemberAt(groups, toks, pos, budget - 1).pos;
      var b := MembersAt(groups, toks, pos, g, budget);
      MembersAtSpells(groups, toks, p, g, budget);
      assert b.value[1..] == MembersAt(groups, toks, p, g, budget).value;
      SpellsAppend(groups, toks, pos, p, b.pos, FlattenMember(b.value[0]), FlattenMembers(b.value[1..]));
    }
  }

  /** Structuring a section drops, adds and moves nothing: flattening gives back every field in its place,
      count fields in canonical digits. */
  lemma {:induction false} SectionAtSpells(groups: Groups, toks: seq<Field>, pos: nat, budget: nat)
    requires pos <= |toks| && SectionAt(groups, toks, pos, budget).Built?
    ensures Spells(groups, toks, pos, |toks|, FlattenMembers(SectionAt(groups, toks, pos, budget).value))
    decreases |toks| - pos
  {
    if pos < |toks| {
      MemberAtSpells(groups, toks, pos, budget);
      var p := MemberAt(groups, toks, pos, budget).pos;
      var ms := SectionAt(groups, toks, pos, budget).value;
      SectionAtSpells(groups, toks, p, budget);
      assert ms[1..] == SectionAt(groups, toks, p, budget).value;
      SpellsAppend(groups, toks, pos, p, |toks|, FlattenMember(ms[0]), FlattenMembers(ms[1..]));
    }
  }
}
