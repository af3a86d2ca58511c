/** The group validators on trees built in code rather than read off the wire: a tree against its own
    flattening, and the dictionaries for which every well-shaped tree can be read back. */
module TreeAgreement {
  import opened Decimal
  import opened FieldMaps
  import opened Dictionary
  import opened Grouping
  import opened GroupingRoundTrip
  import opened FlatGroups
  import opened StructuredGroups
  import opened GroupConformance
  import opened GroupAgreement
  import opened Graphs
  import GroupClosure

  // ----- recording the counts changes no structured verdict

  lemma {:induction false} GetDeclared(ms: seq<Member>, t: Tag)
    ensures GetField(DeclareMembers(ms), t) == GetField(ms, t)
    ensures GetGroup(DeclareMembers(ms), t) ==
            match GetGroup(ms, t) case None => None case Some(es) => Some(DeclareEntries(es))
  {
    if ms != [] {
      GetDeclared(ms[1..], t);
      assert DeclareMembers(ms)[1..] == DeclareMembers(ms[1..]);
    }
  }

  lemma {:induction false} AbsentDeclared(d: Dict, required: seq<Tag>, ms: seq<Member>)
    ensures FirstAbsent(d, required, DeclareMembers(ms)) == FirstAbsent(d, required, ms)
  {
    if required != [] {
      GetDeclared(ms, required[0]);
      AbsentDeclared(d, required[1..], ms);
    }
  }

  lemma {:induction false} CheckDeclared(
    d: Dict, v: Formats, o: Options, entries: seq<FieldMap>, declared: Option<int>, next: Option<Tag>, tag: Tag)
    ensures CheckGroup(d, v, o, DeclareEntries(entries), Some(CountToEmit(entries, declared)), next, tag)
         == CheckGroup(d, v, o, entries, declared, next, tag)
    decreases entries, 1
  {
    if tag in d.groups {
      CheckEntriesDeclared(d, v, o, d.groups[tag], entries, next);
    }
  }

  lemma {:induction false} CheckEntriesDeclared(
    d: Dict, v: Formats, o: Options, g: GroupDef, entries: seq<FieldMap>, next: Option<Tag>)
    ensures CheckEntries(d, v, o, g, DeclareEntries(entries), next) == CheckEntries(d, v, o, g, entries, next)
    decreases entries, 0
  {
    if entries != [] {
      var entry := entries[0];
      assert DeclareEntries(entries)[0].members == DeclareMembers(entry.members);
      assert DeclareEntries(entries)[1..] == DeclareEntries(entries[1..]);
      CheckMembersDeclared(d, v, o, g, entry.members, 0, next);
      AbsentDeclared(d, g.required, entry.members);
      CheckEntriesDeclared(d, v, o, g, entries[1..], next);
    }
  }

  lemma {:induction false} CheckMembersDeclared(
    d: Dict, v: Formats, o: Options, g: GroupDef, ms: seq<Member>, lastIdx: nat, next: Option<Tag>)
    ensures CheckMembers(d, v, o, g, DeclareMembers(ms), lastIdx, next) == CheckMembers(d, v, o, g, ms, lastIdx, next)
    decreases ms, 1
  {
    if ms != [] {
      var ds := DeclareMembers(ms);
      assert ds[1..] == DeclareMembers(ms[1..]);
      assert |ms| > 1 ==> ds[1] == DeclareMembers(ms[1..])[0];
      var after := Following(ms, next);
      assert Following(ds, next) == after;
      if ms[0].GroupMember? {
        CheckDeclared(d, v, o, ms[0].entries, ms[0].declared, after, ms[0].countTag);
      }
      var idx := if TagOf(ms[0]) in g.members then Index(g.members, TagOf(ms[0])) else lastIdx;
      CheckMembersDeclared(d, v, o, g, ms[1..], idx, next);
    }
  }

  lemma {:induction false} DemandsDeclared(d: Dict, v: Formats, o: Options, ms: seq<Member>)
    ensures DemandsMembers(d, o, DeclareMembers(ms)) <==> DemandsMembers(d, o, ms)
    ensures ValuedMembers(d, v, o, DeclareMembers(ms)) <==> ValuedMembers(d, v, o, ms)
    decreases ms, 1
  {
    hide DemandsEntries;
    hide ValuedEntries;
    if ms != [] {
      assert DeclareMembers(ms)[1..] == DeclareMembers(ms[1..]);
      DemandsDeclared(d, v, o, ms[1..]);
      if ms[0].GroupMember? && ms[0].countTag in d.groups {
        DemandsEntriesDeclared(d, v, o, d.groups[ms[0].countTag], ms[0].entries);
      }
    }
  }

  lemma {:induction false} DemandsEntriesDeclared(d: Dict, v: Formats, o: Options, g: GroupDef, entries: seq<FieldMap>)
    ensures DemandsEntries(d, o, g, DeclareEntries(entries)) <==> DemandsEntries(d, o, g, entries)
    ensures ValuedEntries(d, v, o, g, DeclareEntries(entries)) <==> ValuedEntries(d, v, o, g, entries)
    decreases entries, 0
  {
    hide EntryDemands;
    hide DelimiterValued;
    hide DemandsMembers;
    hide ValuedMembers;
    if entries != [] {
      var ms := entries[0].members;
      assert DeclareEntries(entries)[0].members == DeclareMembers(ms);
      assert DeclareEntries(entries)[1..] == DeclareEntries(entries[1..]);
      DemandsDeclared(d, v, o, ms);
      DemandsEntriesDeclared(d, v, o, g, entries[1..]);
      EntryDemandsDeclared(d, v, o, g, ms);
    }
  }

  lemma EntryDemandsDeclared(d: Dict, v: Formats, o: Options, g: GroupDef, ms: seq<Member>)
    ensures EntryDemands(d, o, g, DeclareMembers(ms)) <==> EntryDemands(d, o, g, ms)
    ensures DelimiterValued(d, v, o, g, DeclareMembers(ms)) <==> DelimiterValued(d, v, o, g, ms)
  {
    hide EntryFieldValue;
    forall t ensures GetGroup(DeclareMembers(ms), t) == Some([]) <==> GetGroup(ms, t) == Some([]) {
      GetDeclared(ms, t);
    }
    DeclaredTags(ms);
  }

  lemma {:induction false} DeclaredTags(ms: seq<Member>)
    ensures forall i :: 0 <= i < |ms| ==> DeclareMembers(ms)[i] == DeclareMember(ms[i])
  {
    if ms != [] {
      DeclaredTags(ms[1..]);
      assert DeclareMembers(ms)[1..] == DeclareMembers(ms[1..]);
      forall i | 1 <= i < |ms| ensures DeclareMembers(ms)[i] == DeclareMember(ms[i]) {
        assert ms[i] == ms[1..][i - 1] && DeclareMembers(ms)[i] == DeclareMembers(ms[1..])[i - 1];
      }
    }
  }

  lemma {:induction false} DeclaredIsCounted(ms: seq<Member>)
    ensures CountedMembers(DeclareMembers(ms))
    decreases ms, 1
  {
    if ms != [] {
      assert DeclareMembers(ms)[1..] == DeclareMembers(ms[1..]);
      DeclaredIsCounted(ms[1..]);
      if ms[0].GroupMember? {
        DeclaredEntriesAreCounted(ms[0].entries);
      }
    }
  }

  lemma {:induction false} DeclaredEntriesAreCounted(entries: seq<FieldMap>)
    ensures CountedEntries(DeclareEntries(entries))
    decreases entries, 0
  {
    if entries != [] {
      assert DeclareEntries(entries)[1..] == DeclareEntries(entries[1..]);
      DeclaredIsCounted(entries[0].members);
      DeclaredEntriesAreCounted(entries[1..]);
    }
  }

  /** A fit group and its own flattening: the flat validator accepts the flattening, whatever follows it, and the
      structured one's own demands are met, exactly when the structured validator accepts the tree and the flat
      one's are met; the verdicts differ only where one accepts what fails the other's demands; and accepting, the
      flat validator consumes the flattening and no more. */
  lemma TreeVerdictsAgree(d: Dict, v: Formats, o: Options, m: Member, rest: seq<Field>, next: Option<Tag>, budget: nat)
    requires m.GroupMember? && |FlattenMember(m) + rest| <= I64_MAX
    requires FitMember(d.groups, m, NextTag(rest, 0), budget)
    ensures var r := ScanGroup(d, v, o, FlattenMember(m) + rest, 0, m.countTag);
            var structured := CheckGroup(d, v, o, m.entries, m.declared, next, m.countTag).None?;
            && (r.Ok? && DemandsMember(d, o, m) <==> structured && ValuedMember(d, v, o, m))
            && (structured ==> DemandsMember(d, o, m))
            && (r.Ok? ==> ValuedMember(d, v, o, m) && r.value == |FlattenMember(m)|)
            && (r.Ok? != structured <==> (r.Ok? && !DemandsMember(d, o, m)) || (structured && !ValuedMember(d, v, o, m)))
  {
    var flat := FlattenMember(m);
    var toks := flat + rest;
    assert toks[0..|flat|] == flat;
    assert NextTag(toks, |flat|) == NextTag(rest, 0);
    ReadMemberBack(d.groups, toks, 0, m, budget);
    var dm := DeclareMember(m);
    ScanGroupIsConformance(d, v, o, toks, 0, m.countTag, budget);
    GroupVerdictsAgree(d, v, o, toks, 0, m.countTag, next, budget);
    CheckDeclared(d, v, o, m.entries, m.declared, next, m.countTag);
    DemandsEntriesDeclared(d, v, o, d.groups[m.countTag], m.entries);
    DeclaredEntriesAreCounted(m.entries);
  }

  // ----- dictionaries without ambiguity

  /** No group contains itself, no tag is a member of two groups, and delimiters are members. */
  ghost predicate Unambiguous(groups: Groups) {
    && Acyclic(GroupClosure.MemberGraph(groups))
    && (forall c, c', t :: c in groups && c' in groups && t in groups[c].members && t in groups[c'].members ==> c == c')
    && (forall c :: c in groups ==> groups[c].delimiter in groups[c].members)
  }

  /** Groups rank above those they contain. */
  ghost predicate Ranks(groups: Groups, rank: map<Tag, nat>) {
    && groups.Keys == rank.Keys
    && forall c, t :: c in groups && t in groups && t in groups[c].members ==> rank[t] < rank[c]
  }

  /** A group's rank: how many tags it brings along. */
  ghost function RankOf(groups: Groups): (rank: map<Tag, nat>)
    requires Acyclic(GroupClosure.MemberGraph(groups))
    ensures Ranks(groups, rank)
  {
    var rank := map c | c in groups :: |GroupClosure.Closure(groups, {c})|;
    assert Ranks(groups, rank) by { RankDescends(groups); }
    rank
  }

  lemma RankDescends(groups: Groups)
    requires Acyclic(GroupClosure.MemberGraph(groups))
    ensures forall c, t :: c in groups && t in groups && t in groups[c].members ==>
              |GroupClosure.Closure(groups, {t})| < |GroupClosure.Closure(groups, {c})|
  {
    var g := GroupClosure.MemberGraph(groups);
    forall c, t | c in groups && t in groups && t in groups[c].members
      ensures |GroupClosure.Closure(groups, {t})| < |GroupClosure.Closure(groups, {c})|
    {
      var below, above := GroupClosure.Closure(groups, {t}), GroupClosure.Closure(groups, {c});
      EdgeReaches(g, c, t);
      GroupClosure.ReachedInUniverse(groups, c, t);
      assert t in above;
      forall x | x in below ensures x in above && x != t {
        assert Reaches(g, t, x);
        ReachesTransitive(g, c, t, x);
      }
      SmallerSet(below, above, t);
    }
  }

  lemma SmallerSet(a: set<Tag>, b: set<Tag>, t: Tag)
    requires a <= b && t in b && t !in a
    ensures |a| < |b|
  {
    assert a <= b - {t};
    SubsetSize(a, b - {t});
  }

  lemma {:induction false} SubsetSize(a: set<Tag>, b: set<Tag>)
    requires a <= b
    ensures |a| <= |b|
    decreases a
  {
    if a != {} {
      var x :| x in a;
      SubsetSize(a - {x}, b - {x});
    }
  }

  /** A tag that cannot be taken for a part of any group ranked below `r`. */
  ghost predicate Clear(groups: Groups, rank: map<Tag, nat>, next: Option<Tag>, r: nat)
    requires groups.Keys <= rank.Keys
  {
    next.Some? ==> forall c :: c in groups && next.value in groups[c].members ==> rank[c] >= r
  }

  /** The shape of a tree alone, with no word about what may follow its groups. */
  ghost predicate ShapedMember(groups: Groups, m: Member, budget: nat)
    decreases m, 0
  {
    match m
    case FieldMember(f) => f.tag !in groups
    case GroupMember(ct, entries, declared) =>
      && ct in groups && budget > 0
      && -I64_MAX - 1 <= CountToEmit(entries, declared) <= I64_MAX
      && forall i :: 0 <= i < |entries| ==> ShapedEntry(groups, groups[ct], entries[i], budget)
  }

  ghost predicate ShapedEntry(groups: Groups, g: GroupDef, entry: FieldMap, budget: nat)
    requires budget > 0
    decreases entry, 0
  {
    var ms := entry.members;
    && |ms| > 0 && ms[0].FieldMember? && ms[0].field.tag == g.delimiter
    && forall i :: 1 <= i < |ms| ==>
         TagOf(ms[i]) != g.delimiter && TagOf(ms[i]) in g.members && ShapedMember(groups, ms[i], budget - 1)
  }

  /** Over an unambiguous dictionary every well-shaped tree is fit, wherever it stands. */
  lemma {:induction false} ShapedIsFit(groups: Groups, rank: map<Tag, nat>, m: Member, next: Option<Tag>, r: nat, budget: nat)
    requires Unambiguous(groups) && Ranks(groups, rank) && ShapedMember(groups, m, budget)
    requires m.GroupMember? ==> rank[m.countTag] < r
    requires Clear(groups, rank, next, r)
    ensures FitMember(groups, m, next, budget)
    decreases m, 1
  {
    if m.GroupMember? {
      ShapedEntriesAreFit(groups, rank, m.countTag, m.entries, next, budget);
    }
  }

  lemma {:induction false} ShapedEntriesAreFit(
    groups: Groups, rank: map<Tag, nat>, c: Tag, entries: seq<FieldMap>, next: Option<Tag>, budget: nat)
    requires Unambiguous(groups) && Ranks(groups, rank) && c in groups && budget > 0
    requires forall i :: 0 <= i < |entries| ==> ShapedEntry(groups, groups[c], entries[i], budget)
    requires Clear(groups, rank, next, rank[c] + 1)
    ensures FitEntries(groups, groups[c], entries, next, budget)
    decreases entries, 1
  {
    var g := groups[c];
    if entries != [] {
      var here := if |entries| > 1 then Some(g.delimiter) else next;
      assert Clear(groups, rank, here, rank[c]);
      var ms := entries[0].members;
      ShapedMembersAreFit(groups, rank, c, ms[1..], here, budget);
      ShapedEntriesAreFit(groups, rank, c, entries[1..], next, budget);
    }
  }

  lemma {:induction false} ShapedMembersAreFit(
    groups: Groups, rank: map<Tag, nat>, c: Tag, ms: seq<Member>, next: Option<Tag>, budget: nat)
    requires Unambiguous(groups) && Ranks(groups, rank) && c in groups && budget > 0
    requires forall i :: 0 <= i < |ms| ==>
               TagOf(ms[i]) != groups[c].delimiter && TagOf(ms[i]) in groups[c].members && ShapedMember(groups, ms[i], budget - 1)
    requires next == Some(groups[c].delimiter) || Clear(groups, rank, next, rank[c] + 1)
    ensures FitMembers(groups, groups[c], ms, next, budget)
    decreases ms, 1
  {
    if ms != [] {
      var after := Following(ms, next);
      assert Clear(groups, rank, after, rank[c]);
      ShapedIsFit(groups, rank, ms[0], after, rank[c], budget - 1);
      ShapedMembersAreFit(groups, rank, c, ms[1..], next, budget);
    }
  }

  lemma {:induction false} AlwaysValued(d: Dict, v: Formats, o: Options, ms: seq<Member>)
    requires forall c :: c in d.groups ==> d.groups[c].delimiter in d.groups[c].members
    ensures ValuedMembers(d, v, o, ms)
    decreases ms, 1
  {
    if ms != [] {
      AlwaysValued(d, v, o, ms[1..]);
      if ms[0].GroupMember? && ms[0].countTag in d.groups {
        AlwaysValuedEntries(d, v, o, ms[0].countTag, ms[0].entries);
      }
    }
  }

  lemma {:induction false} AlwaysValuedEntries(d: Dict, v: Formats, o: Options, c: Tag, entries: seq<FieldMap>)
    requires c in d.groups && forall c :: c in d.groups ==> d.groups[c].delimiter in d.groups[c].members
    ensures ValuedEntries(d, v, o, d.groups[c], entries)
    decreases entries, 0
  {
    if entries != [] {
      AlwaysValued(d, v, o, entries[0].members);
      AlwaysValuedEntries(d, v, o, c, entries[1..]);
    }
  }

  /** So over an unambiguous dictionary the two validators agree on every well-shaped group, up to the structured
      one's own demands, when the field after its flattening is no group's member. */
  lemma ShapedVerdictsAgree(
    d: Dict, v: Formats, o: Options, m: Member, rest: seq<Field>, next: Option<Tag>, budget: nat)
    requires Unambiguous(d.groups) && m.GroupMember? && ShapedMember(d.groups, m, budget)
    requires |FlattenMember(m) + rest| <= I64_MAX
    requires rest != [] ==> forall c :: c in d.groups ==> rest[0].tag !in d.groups[c].members
    ensures var r := ScanGroup(d, v, o, FlattenMember(m) + rest, 0, m.countTag);
            && (r.Ok? && DemandsMember(d, o, m) <==>
                CheckGroup(d, v, o, m.entries, m.declared, next, m.countTag).None?)
            && (r.Ok? ==> r.value == |FlattenMember(m)|)
  {
    hide ScanGroup;
    hide CheckGroup;
    hide DemandsMember;
    var rank := RankOf(d.groups);
    ShapedIsFit(d.groups, rank, m, NextTag(rest, 0), rank[m.countTag] + 1, budget);
    TreeVerdictsAgree(d, v, o, m, rest, next, budget);
    AlwaysValued(d, v, o, [m]);
  }
}
