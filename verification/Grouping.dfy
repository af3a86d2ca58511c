/** Structuring a flat field list into repeating groups (`truefix-core/src/codec/decode.rs`), greedily and
    led by the dictionary's group definitions. */
module Grouping {
  import opened Decimal
  import opened FieldMaps
  import opened Dictionary

  const MAX_GROUP_NESTING_DEPTH: nat := 32

  type Groups = map<Tag, GroupDef>

  datatype Built<+T> = Built(pos: nat, value: T) | TooDeep

  /** The group whose count field stands at `pos`; `budget` is how many levels of nesting are left. */
  function GroupAt(groups: Groups, toks: seq<Field>, pos: nat, tag: Tag, budget: nat): (r: Built<Member>)
    requires pos < |toks| && tag in groups
    ensures r.Built? ==> pos < r.pos <= |toks| && r.value.GroupMember? && r.value.countTag == tag
    decreases |toks| - pos, 0
  {
    if budget == 0 then TooDeep
    else match EntriesAt(groups, toks, pos + 1, groups[tag], budget)
      case TooDeep => TooDeep
      case Built(p, entries) => Built(p, GroupMember(tag, entries, AsInt(toks[pos])))
  }

  /** The group or the plain field at `pos`. */
  function MemberAt(groups: Groups, toks: seq<Field>, pos: nat, budget: nat): (r: Built<Member>)
    requires pos < |toks|
    ensures r.Built? ==> pos < r.pos <= |toks| && TagOf(r.value) == toks[pos].tag
    decreases |toks| - pos, 1
  {
    if toks[pos].tag in groups then GroupAt(groups, toks, pos, toks[pos].tag, budget)
    else Built(pos + 1, FieldMember(toks[pos]))
  }

  function EntriesAt(groups: Groups, toks: seq<Field>, pos: nat, g: GroupDef, budget: nat): (r: Built<seq<FieldMap>>)
    requires pos <= |toks| && budget > 0
    ensures r.Built? ==> pos <= r.pos <= |toks|
    decreases |toks| - pos, 2
  {
    if pos == |toks| || toks[pos].tag != g.delimiter then Built(pos, [])
    else match MembersAt(groups, toks, pos + 1, g, budget)
      case TooDeep => TooDeep
      case Built(p, ms) =>
        match EntriesAt(groups, toks, p, g, budget)
        case TooDeep => TooDeep
        case Built(q, entries) => Built(q, [FieldMap([FieldMember(toks[pos])] + ms)] + entries)
  }

  function MembersAt(groups: Groups, toks: seq<Field>, pos: nat, g: GroupDef, budget: nat): (r: Built<seq<Member>>)
    requires pos <= |toks| && budget > 0
    ensures r.Built? ==> pos <= r.pos <= |toks|
    decreases |toks| - pos, 2
  {
    if pos == |toks| || toks[pos].tag == g.delimiter || toks[pos].tag !in g.members then Built(pos, [])
    else
      match MemberAt(groups, toks, pos, budget - 1)
      case TooDeep => TooDeep
      case Built(p, m) =>
        match MembersAt(groups, toks, p, g, budget)
        case TooDeep => TooDeep
        case Built(q, ms) => Built(q, [m] + ms)
  }

  /** A whole section of fields (header, body or trailer), with `budget` levels of nesting. */
  function SectionAt(groups: Groups, toks: seq<Field>, pos: nat, budget: nat): (r: Built<seq<Member>>)
    requires pos <= |toks|
    ensures r.Built? ==> r.pos == |toks|
    decreases |toks| - pos
  {
    if pos == |toks| then Built(pos, [])
    else
      match MemberAt(groups, toks, pos, budget)
      case TooDeep => TooDeep
      case Built(p, m) =>
        match SectionAt(groups, toks, p, budget)
        case TooDeep => TooDeep
        case Built(q, ms) => Built(q, [m] + ms)
  }

  /** What a loop that has collected `acc` gives once the rest `r` is known. */
  function Prepend<T>(acc: seq<T>, r: Built<seq<T>>): (s: Built<seq<T>>)
    ensures acc == [] ==> s == r
    ensures r.Built? && r.value == [] ==> s == Built(r.pos, acc)
  {
    match r
    case TooDeep => TooDeep
    case Built(p, v) =>
      assert acc == [] ==> acc + v == v;
      assert v == [] ==> acc + v == acc;
      Built(p, acc + v)
  }

  method BuildGroup(groups: Groups, toks: seq<Field>, pos: nat, tag: Tag, depth: nat) returns (r: Built<Member>)
    requires pos < |toks| && tag in groups
    requires depth <= MAX_GROUP_NESTING_DEPTH
    ensures r == GroupAt(groups, toks, pos, tag, MAX_GROUP_NESTING_DEPTH - depth)
    decreases |toks| - pos, 0
  {
    if depth >= MAX_GROUP_NESTING_DEPTH {
      return TooDeep;
    }
    ghost var budget := MAX_GROUP_NESTING_DEPTH - depth;
    var g := groups[tag];
    var declared := AsInt(toks[pos]);
    var p := pos + 1;
    var entries: seq<FieldMap> := [];
    while p < |toks| && toks[p].tag == g.delimiter
      invariant pos < p <= |toks|
      invariant EntriesAt(groups, toks, pos + 1, g, budget) == Prepend(entries, EntriesAt(groups, toks, p, g, budget))
    {
      var sub := BuildMembers(groups, toks, p + 1, g, depth);
      if sub.TooDeep? {
        return TooDeep;
      }
      var entry := FieldMap([FieldMember(toks[p])] + sub.value);
      PrependOne(entries, entry, EntriesAt(groups, toks, sub.pos, g, budget));
      p, entries := sub.pos, entries + [entry];
    }
    r := Built(p, GroupMember(tag, entries, declared));
  }

  /** The members of one entry after its delimiter: the inner loop of `build_group`. */
  method BuildMembers(groups: Groups, toks: seq<Field>, pos: nat, g: GroupDef, depth: nat) returns (r: Built<seq<Member>>)
    requires pos <= |toks| && depth < MAX_GROUP_NESTING_DEPTH
    ensures r == MembersAt(groups, toks, pos, g, MAX_GROUP_NESTING_DEPTH - depth)
    decreases |toks| - pos, 1
  {
    ghost var budget := MAX_GROUP_NESTING_DEPTH - depth;
    var p, ms: seq<Member> := pos, [];
    while p < |toks| && toks[p].tag != g.delimiter && toks[p].tag in g.members
      invariant pos <= p <= |toks|
      invariant MembersAt(groups, toks, pos, g, budget) == Prepend(ms, MembersAt(groups, toks, p, g, budget))
    {
      var m: Member;
      if toks[p].tag in groups {
        var sub := BuildGroup(groups, toks, p, toks[p].tag, depth + 1);
        if sub.TooDeep? {
          return TooDeep;
        }
        p, m := sub.pos, sub.value;
      } else {
        p, m := p + 1, FieldMember(toks[p]);
      }
      PrependOne(ms, m, MembersAt(groups, toks, p, g, budget));
      ms := ms + [m];
    }
    r := Built(p, ms);
  }

  lemma PrependOne<T>(acc: seq<T>, x: T, r: Built<seq<T>>)
    ensures Prepend(acc, Prepend([x], r)) == Prepend(acc + [x], r)
  {
    if r.Built? { assert acc + ([x] + r.value) == acc + [x] + r.value; }
  }

  /** Structuring one section's fields. */
  method DecodeSection(groups: Groups, toks: seq<Field>) returns (r: Built<seq<Member>>)
    ensures r == SectionAt(groups, toks, 0, MAX_GROUP_NESTING_DEPTH)
  {
    var pos, out: seq<Member> := 0, [];
    while pos < |toks|
      invariant pos <= |toks|
      invariant SectionAt(groups, toks, 0, MAX_GROUP_NESTING_DEPTH)
             == Prepend(out, SectionAt(groups, toks, pos, MAX_GROUP_NESTING_DEPTH))
    {
      var m: Member;
      if toks[pos].tag in groups {
        var sub := BuildGroup(groups, toks, pos, toks[pos].tag, 0);
        if sub.TooDeep? {
          return TooDeep;
        }
        pos, m := sub.pos, sub.value;
      } else {
        pos, m := pos + 1, FieldMember(toks[pos]);
      }
      PrependOne(out, m, SectionAt(groups, toks, pos, MAX_GROUP_NESTING_DEPTH));
      out := out + [m];
    }
    r := Built(pos, out);
  }

  /** With as much budget as there are fields, nesting never runs out. */
  lemma {:induction false} GroupAtBuilt(groups: Groups, toks: seq<Field>, pos: nat, tag: Tag, budget: nat)
    requires pos < |toks| && tag in groups && budget >= |toks| - pos
    ensures GroupAt(groups, toks, pos, tag, budget).Built?
    decreases |toks| - pos, 0
  {
    EntriesAtBuilt(groups, toks, pos + 1, groups[tag], budget);
  }

  lemma {:induction false} EntriesAtBuilt(groups: Groups, toks: seq<Field>, pos: nat, g: GroupDef, budget: nat)
    requires pos <= |toks| && budget > |toks| - pos
    ensures EntriesAt(groups, toks, pos, g, budget).Built?
    decreases |toks| - pos, 1
  {
    if pos < |toks| && toks[pos].tag == g.delimiter {
      MembersAtBuilt(groups, toks, pos + 1, g, budget);
      EntriesAtBuilt(groups, toks, MembersAt(groups, toks, pos + 1, g, budget).pos, g, budget);
    }
  }

  lemma {:induction false} MembersAtBuilt(groups: Groups, toks: seq<Field>, pos: nat, g: GroupDef, budget: nat)
    requires pos <= |toks| && budget > |toks| - pos
    ensures MembersAt(groups, toks, pos, g, budget).Built?
    decreases |toks| - pos, 1
  {
    if pos < |toks| && toks[pos].tag != g.delimiter && toks[pos].tag in g.members {
      if toks[pos].tag in groups {
        GroupAtBuilt(groups, toks, pos, toks[pos].tag, budget - 1);
      }
      MembersAtBuilt(groups, toks, MemberAt(groups, toks, pos, budget - 1).pos, g, budget);
    }
  }
}
