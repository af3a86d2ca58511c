/** What the vendor conversion writes: one line for each group that is referred to, opened by the tag the
    runtime reader will find first (`truefix-dict/src/vendor_xml.rs:610-744`). */
module VendorGroups {
  import opened Decimal
  import opened FieldMaps
  import opened Graphs
  import opened Components
  import opened VendorXml

  // ------------------------------------------------------------ tokens

  /** The word an entry is written as: a tag, or a component by name. */
  function Token(fields: map<string, Tag>, e: Entry): RawMember {
    match e.kind
    case FieldRef(n) => TagMember(if n in fields then fields[n] else 0)
    case Reference(n) => ComponentRef(n)
    case InlineGroup(g) => TagMember(if g.name in fields then fields[g.name] else 0)
  }

  function Tokens(fields: map<string, Tag>, es: seq<Entry>): seq<RawMember> {
    seq(|es|, i requires 0 <= i < |es| => Token(fields, es[i]))
  }

  ghost predicate Known(fields: map<string, Tag>, table: Table, e: Entry) {
    match e.kind
    case FieldRef(n) => n in fields
    case Reference(n) => n in table
    case InlineGroup(g) => g.name in fields
  }

  ghost predicate AllKnown(fields: map<string, Tag>, table: Table, es: seq<Entry>) {
    forall i :: 0 <= i < |es| ==> Known(fields, table, es[i])
  }

  lemma {:induction false} ResolveTokens(fields: map<string, Tag>, table: Table, es: seq<Entry>, out: Output)
    requires Resolve(fields, table, es, out).Ok?
    ensures Resolve(fields, table, es, out).value.0 == Tokens(fields, es) && AllKnown(fields, table, es)
    decreases |es|
  {
    hide EmitGroup;
    if es != [] {
      var init, last := es[..|es| - 1], es[|es| - 1];
      ResolveTokens(fields, table, init, out);
      assert Tokens(fields, es) == Tokens(fields, init) + [Token(fields, last)];
      assert Known(fields, table, last);
      assert forall i :: 0 <= i < |init| ==> init[i] == es[i];
    }
  }

  // ------------------------------------------------------------ one line for each group

  ghost function Counts(lines: seq<GroupLine>): set<Tag> {
    set i | 0 <= i < |lines| :: lines[i].count
  }

  ghost predicate DistinctCounts(lines: seq<GroupLine>) {
    forall i, j :: 0 <= i < j < |lines| ==> lines[i].count != lines[j].count
  }

  /** Every group among the entries has its count tag in the set. */
  ghost predicate Covered(fields: map<string, Tag>, es: seq<Entry>, tags: set<Tag>) {
    forall i :: 0 <= i < |es| && es[i].kind.InlineGroup? ==>
      es[i].kind.group.name in fields && fields[es[i].kind.group.name] in tags
  }

  /** The line the group should have. */
  ghost predicate LineFor(fields: map<string, Tag>, table: Table, line: GroupLine, g: VendorGroup) {
    && g.name in fields && line.count == fields[g.name] && line.name == g.name
    && AllKnown(fields, table, g.members)
    && line.members == Tokens(fields, g.members) && line.required == Tokens(fields, RequiredOnly(g.members))
    && var first := FirstTag(fields, table, g.members, {});
       first.Ok? && line.delimiter == if first.value.Some? then first.value.value else line.count
  }

  /** The line belongs to a group of the document all of whose own groups are covered. */
  ghost predicate Grounded(fields: map<string, Tag>, table: Table, line: GroupLine, tags: set<Tag>) {
    exists g: VendorGroup :: LineFor(fields, table, line, g) && Covered(fields, g.members, tags)
  }

  /** What a step adds: new lines, all grounded, for count tags that had no turn before. */
  ghost predicate Emits(fields: map<string, Tag>, table: Table, out: Output, lines: seq<GroupLine>, after: Output) {
    && after.lines == out.lines + lines
    && after.emitted == out.emitted + Counts(lines)
    && DistinctCounts(lines)
    && (forall i :: 0 <= i < |lines| ==> lines[i].count !in out.emitted)
    && (forall i :: 0 <= i < |lines| ==> Grounded(fields, table, lines[i], after.emitted))
  }

  lemma CountsAppend(a: seq<GroupLine>, b: seq<GroupLine>)
    ensures Counts(a + b) == Counts(a) + Counts(b)
  {
    var c := a + b;
    forall i | 0 <= i < |a| ensures a[i].count in Counts(c) {
      assert c[i] == a[i];
    }
    forall i | 0 <= i < |b| ensures b[i].count in Counts(c) {
      assert c[|a| + i] == b[i];
    }
  }

  lemma GroundedMore(fields: map<string, Tag>, table: Table, line: GroupLine, tags: set<Tag>, more: set<Tag>)
    requires Grounded(fields, table, line, tags) && tags <= more
    ensures Grounded(fields, table, line, more)
  {
    hide LineFor;
    var g :| LineFor(fields, table, line, g) && Covered(fields, g.members, tags);
    assert Covered(fields, g.members, more);
  }

  lemma EmitsThen(fields: map<string, Tag>, table: Table, out: Output, a: seq<GroupLine>, mid: Output, b: seq<GroupLine>, after: Output)
    requires Emits(fields, table, out, a, mid) && Emits(fields, table, mid, b, after)
    ensures Emits(fields, table, out, a + b, after)
  {
    hide Grounded;
    CountsAppend(a, b);
    var c := a + b;
    assert after.lines == out.lines + c;
    forall i | 0 <= i < |c| ensures Grounded(fields, table, c[i], after.emitted) && c[i].count !in out.emitted {
      if i < |a| {
        GroundedMore(fields, table, a[i], mid.emitted, after.emitted);
      } else {
        assert c[i] == b[i - |a|];
      }
    }
    forall i, j | 0 <= i < j < |c| ensures c[i].count != c[j].count {
      if i < |a| <= j {
        assert a[i].count in Counts(a) && c[j] == b[j - |a|];
      } else if |a| <= i {
        assert c[i] == b[i - |a|] && c[j] == b[j - |a|];
      }
    }
  }

  lemma EmitsNothing(fields: map<string, Tag>, table: Table, out: Output)
    ensures Emits(fields, table, out, [], out)
  {
    assert out.lines + [] == out.lines;
    assert Counts([]) == {};
  }

  /** A group's line comes after those of the groups inside it, which see its count tag as done. */
  lemma EmitsLast(fields: map<string, Tag>, table: Table, out: Output, count: Tag, inner: seq<GroupLine>, mid: Output, line: GroupLine)
    requires count !in out.emitted && line.count == count
    requires Emits(fields, table, out.(emitted := out.emitted + {count}), inner, mid)
    requires Grounded(fields, table, line, mid.emitted)
    ensures Emits(fields, table, out, inner + [line], mid.(lines := mid.lines + [line]))
  {
    hide Grounded;
    CountsAppend(inner, [line]);
    assert [line][0] == line && Counts([line]) == {count};
    var c := inner + [line];
    assert out.lines + inner + [line] == out.lines + c;
    forall i, j | 0 <= i < j < |c| ensures c[i].count != c[j].count {
      assert c[i] == inner[i] && inner[i].count != count;
    }
  }

  lemma {:induction false} ResolveEmits(fields: map<string, Tag>, table: Table, es: seq<Entry>, out: Output) returns (lines: seq<GroupLine>)
    requires Resolve(fields, table, es, out).Ok?
    ensures Emits(fields, table, out, lines, Resolve(fields, table, es, out).value.1)
    ensures Covered(fields, es, Resolve(fields, table, es, out).value.1.emitted)
    decreases EntriesSize(es), 1
  {
    hide Emits;
    hide ResolveOne;
    if es == [] {
      EmitsNothing(fields, table, out);
      lines := [];
    } else {
      var init, last := es[..|es| - 1], es[|es| - 1];
      var a := ResolveEmits(fields, table, init, out);
      var mid := Resolve(fields, table, init, out).value.1;
      var b := ResolveOneEmits(fields, table, last, mid);
      var after := ResolveOne(fields, table, last, mid).value.1;
      EmitsThen(fields, table, out, a, mid, b, after);
      EmitsGrow(fields, table, mid, b, after);
      lines := a + b;
      assert es == init + [last];
    }
  }

  lemma EmitsGrow(fields: map<string, Tag>, table: Table, out: Output, lines: seq<GroupLine>, after: Output)
    requires Emits(fields, table, out, lines, after)
    ensures out.emitted <= after.emitted
  {
  }

  lemma {:induction false} ResolveOneEmits(fields: map<string, Tag>, table: Table, e: Entry, out: Output) returns (lines: seq<GroupLine>)
    requires ResolveOne(fields, table, e, out).Ok?
    ensures Emits(fields, table, out, lines, ResolveOne(fields, table, e, out).value.1)
    ensures e.kind.InlineGroup? ==> e.kind.group.name in fields && fields[e.kind.group.name] in ResolveOne(fields, table, e, out).value.1.emitted
    decreases EntrySize(e), 0
  {
    hide Emits;
    hide EmitGroup;
    EmitsNothing(fields, table, out);
    lines := [];
    if e.kind.InlineGroup? {
      var g := e.kind.group;
      if fields[g.name] !in out.emitted {
        lines := EmitGroupEmits(fields, table, g, out);
      }
    }
  }

  lemma {:induction false} EmitGroupEmits(fields: map<string, Tag>, table: Table, g: VendorGroup, out: Output) returns (lines: seq<GroupLine>)
    requires g.name in fields && fields[g.name] !in out.emitted && EmitGroup(fields, table, g, out).Ok?
    ensures Emits(fields, table, out, lines, EmitGroup(fields, table, g, out).value)
    ensures fields[g.name] in EmitGroup(fields, table, g, out).value.emitted
    decreases EntriesSize(g.members) + 1, 0
  {
    hide Emits;
    hide Resolve;
    hide FirstTag;
    hide Counts;
    var count := fields[g.name];
    var start := out.(emitted := out.emitted + {count});
    ResolveTokens(fields, table, g.members, start);
    var a := ResolveEmits(fields, table, g.members, start);
    var inner := Resolve(fields, table, g.members, start).value.1;
    ResolveTokens(fields, table, RequiredOnly(g.members), inner);
    var b := ResolveEmits(fields, table, RequiredOnly(g.members), inner);
    var mid := Resolve(fields, table, RequiredOnly(g.members), inner).value.1;
    EmitsThen(fields, table, start, a, inner, b, mid);
    EmitsGrow(fields, table, start, a, inner);
    EmitsGrow(fields, table, inner, b, mid);
    var after := EmitGroup(fields, table, g, out).value;
    var line := after.lines[|after.lines| - 1];
    assert after == mid.(lines := mid.lines + [line]);
    assert Grounded(fields, table, line, mid.emitted) by {
      assert LineFor(fields, table, line, g);
      assert Covered(fields, g.members, mid.emitted);
    }
    EmitsLast(fields, table, out, count, a + b, mid, line);
    lines := a + b + [line];
  }

  // ------------------------------------------------------------ the opening tag

  /** The component lines as the runtime reader takes them in. */
  function RawOf(fields: map<string, Tag>, table: Table): RawComponents {
    map n | n in table :: Tokens(fields, table[n])
  }

  /** An expanded list opens as its first member does. */
  lemma {:induction false} NaiveHead(raw: RawComponents, ms: seq<RawMember>, depth: nat)
    requires depth > 0 && ms != [] && NaiveMembers(raw, ms, depth).Some?
    ensures NaiveMember(raw, ms[0], depth).Some? && NaiveMember(raw, ms[0], depth).value <= NaiveMembers(raw, ms, depth).value
  {
    hide Naive;
    var init := ms[..|ms| - 1];
    if init == [] {
      assert NaiveMembers(raw, init, depth) == Some([]);
      assert [] + NaiveMember(raw, ms[0], depth).value == NaiveMember(raw, ms[0], depth).value;
    } else {
      NaiveHead(raw, init, depth);
    }
  }

  /** Following first members finds the head of the expansion; the recursion ends where the expansion does. */
  lemma {:induction false} FirstTagIsHead(fields: map<string, Tag>, table: Table, members: seq<Entry>, path: set<string>, depth: nat)
    requires path <= table.Keys && depth > 0 && AllKnown(fields, table, members)
    requires forall n :: n in table ==> AllKnown(fields, table, table[n])
    requires NaiveMembers(RawOf(fields, table), Tokens(fields, members), depth).Some?
    requires forall x, n :: x in path && ComponentRef(n) in Tokens(fields, members) ==> Reaches(RefGraph(RawOf(fields, table)), x, n)
    ensures var first := FirstTag(fields, table, members, path);
            first.Ok? &&
            (first.value.Some? ==> var tags := NaiveMembers(RawOf(fields, table), Tokens(fields, members), depth).value;
                                   tags != [] && tags[0] == first.value.value)
    decreases depth
  {
    hide NaiveMembers;
    hide Reaches;
    var raw, ms := RawOf(fields, table), Tokens(fields, members);
    if members != [] {
      NaiveHead(raw, ms, depth);
      assert Known(fields, table, members[0]);
      if members[0].kind.Reference? {
        var n := members[0].kind.name;
        assert ms[0] == ComponentRef(n) && ComponentRef(n) in ms;
        assert Naive(raw, n, depth - 1).Some?;
        NotOnPath(raw, n, depth - 1, path);
        Descends(raw, n, path);
        assert raw[n] == Tokens(fields, table[n]);
        FirstTagIsHead(fields, table, table[n], path + {n}, depth - 1);
      }
    }
  }

  lemma NotOnPath(raw: RawComponents, n: string, depth: nat, path: set<string>)
    requires Naive(raw, n, depth).Some?
    requires forall x :: x in path ==> Reaches(RefGraph(raw), x, n)
    ensures n !in path
  {
    hide Naive;
    hide Reaches;
    assert Expands(raw, n, Naive(raw, n, depth).value);
    CyclicHasNoExpansion(raw, n, Naive(raw, n, depth).value);
  }

  lemma Descends(raw: RawComponents, n: string, path: set<string>)
    requires n in raw && forall x :: x in path ==> Reaches(RefGraph(raw), x, n)
    ensures forall x, m :: x in path + {n} && ComponentRef(m) in raw[n] ==> Reaches(RefGraph(raw), x, m)
  {
    hide Reaches;
    forall x, m | x in path + {n} && ComponentRef(m) in raw[n] ensures Reaches(RefGraph(raw), x, m) {
      EdgeReaches(RefGraph(raw), n, m);
      if x != n {
        ReachesTransitive(RefGraph(raw), x, n, m);
      }
    }
  }

  ghost predicate NoneEmpty(table: Table) {
    forall n :: n in table ==> table[n] != []
  }

  /** Where no component is empty, a list that is not empty opens with a tag. */
  lemma {:induction false} FirstTagFound(fields: map<string, Tag>, table: Table, members: seq<Entry>, path: set<string>)
    requires path <= table.Keys && NoneEmpty(table) && members != []
    requires FirstTag(fields, table, members, path).Ok?
    ensures FirstTag(fields, table, members, path).value.Some?
    decreases table.Keys - path
  {
    if members[0].kind.Reference? {
      FirstTagFound(fields, table, table[members[0].kind.name], path + {members[0].kind.name});
    }
  }

  /** The delimiter of a written line is the head of the list the runtime reader expands it to, exactly when
      following first members ends at a tag, or the count tag itself happens to come first. */
  lemma DelimiterExactly(fields: map<string, Tag>, components: Table, line: GroupLine, g: VendorGroup,
                         table: map<string, seq<Tag>>, tags: seq<Tag>)
    requires forall n :: n in components ==> AllKnown(fields, components, components[n])
    requires LineFor(fields, components, line, g)
    requires IsResolution(RawOf(fields, components), table)
    requires ExpandMembers(line.members, table) == Success(tags) && tags != []
    ensures line.delimiter == tags[0] <==>
              FirstTag(fields, components, g.members, {}).value.Some? || line.count == tags[0]
  {
    hide FirstTag;
    hide NaiveMembers;
    var raw := RawOf(fields, components);
    ExpandMembersIsNaive(raw, table, line.members);
    var depth: nat :| depth > 0 && NaiveMembers(raw, line.members, depth) == Some(tags);
    FirstTagIsHead(fields, components, g.members, {}, depth);
  }

  /** With components that expand and are not empty, every line with members opens with its delimiter. */
  lemma DelimiterIsHead(fields: map<string, Tag>, components: Table, line: GroupLine, g: VendorGroup, tags: seq<Tag>)
    requires forall n :: n in components ==> AllKnown(fields, components, components[n])
    requires NoneEmpty(components) && LineFor(fields, components, line, g) && line.members != []
    requires ExpandsMembers(RawOf(fields, components), line.members, tags)
    ensures tags != [] && line.delimiter == tags[0]
  {
    hide FirstTag;
    hide NaiveMembers;
    var raw := RawOf(fields, components);
    var depth: nat :| depth > 0 && NaiveMembers(raw, line.members, depth) == Some(tags);
    FirstTagIsHead(fields, components, g.members, {}, depth);
    FirstTagFound(fields, components, g.members, {});
  }

  /** A group that opens with an empty component is given its own count tag as delimiter, though a field follows. */
  lemma EmptyComponentMisleads()
    ensures var fields := map["NoLegs" := 555, "LegSymbol" := 600];
            var g := VendorGroup("NoLegs", [Entry(Reference("Empty"), false), Entry(FieldRef("LegSymbol"), true)]);
            var r := EmitGroup(fields, map["Empty" := []], g, Output([], {}));
            && r.Ok? && |r.value.lines| == 1 && r.value.lines[0].delimiter == 555
            && r.value.lines[0].members == [ComponentRef("Empty"), TagMember(600)]
  {
    var fields := map["NoLegs" := 555, "LegSymbol" := 600];
    var table: Table := map["Empty" := []];
    var a, b := Entry(Reference("Empty"), false), Entry(FieldRef("LegSymbol"), true);
    var g := VendorGroup("NoLegs", [a, b]);
    var start := Output([], {555});
    assert g.members[..1] == [a] && [a][..0] == [];
    assert Resolve(fields, table, [], start) == Ok(([], start));
    assert Resolve(fields, table, [a], start) == Ok(([ComponentRef("Empty")], start)) by {
      assert [] + [ComponentRef("Empty")] == [ComponentRef("Empty")];
    }
    assert |"NoLegs"| != |"LegSymbol"|;
    assert ResolveOne(fields, table, b, start) == Ok((TagMember(600), start));
    assert [ComponentRef("Empty")] + [TagMember(600)] == [ComponentRef("Empty"), TagMember(600)];
    assert Resolve(fields, table, g.members, start) == Ok(([ComponentRef("Empty"), TagMember(600)], start));
    assert RequiredOnly([a]) == [] by { assert RequiredOnly([]) == []; }
    assert RequiredOnly(g.members) == [b];
    assert [b][..0] == [];
    assert Resolve(fields, table, [b], start).Ok? && Resolve(fields, table, [b], start).value.1 == start;
    assert FirstTag(fields, table, g.members, {}) == FirstTag(fields, table, table["Empty"], {"Empty"}) == Ok(None);
  }

  // ------------------------------------------------------------ the whole conversion

  datatype MessageLine = MessageLine(msgType: string, name: string, required: seq<RawMember>, optional: seq<RawMember>)

  datatype Rendered = Rendered(
    groups: seq<GroupLine>, components: seq<(string, seq<RawMember>)>, messages: seq<MessageLine>)

  ghost predicate ComponentWritten(fields: map<string, Tag>, table: Table, tags: set<Tag>, from: (string, seq<Entry>), line: (string, seq<RawMember>)) {
    line == (from.0, Tokens(fields, from.1)) && AllKnown(fields, table, from.1) && Covered(fields, from.1, tags)
  }

  ghost predicate MessageWritten(fields: map<string, Tag>, table: Table, tags: set<Tag>, from: VendorMessage, line: MessageLine) {
    && line == MessageLine(from.msgType, from.name, Tokens(fields, RequiredOnly(from.members)), Tokens(fields, OptionalOnly(from.members)))
    && AllKnown(fields, table, RequiredOnly(from.members)) && AllKnown(fields, table, OptionalOnly(from.members))
    && Covered(fields, RequiredOnly(from.members), tags) && Covered(fields, OptionalOnly(from.members), tags)
  }

  /** Every component and message is written with all its references known; every group it refers to, and every
      group referred to from a group line, has exactly one line; and every line is as its group says. */
  ghost predicate WellRendered(v: Vendor, r: Rendered) {
    var table := ByName(v.components);
    && DistinctCounts(r.groups)
    && (forall i :: 0 <= i < |r.groups| ==> Grounded(v.fieldByName, table, r.groups[i], Counts(r.groups)))
    && |r.components| == |v.components|
    && (forall i :: 0 <= i < |v.components| ==> ComponentWritten(v.fieldByName, table, Counts(r.groups), v.components[i], r.components[i]))
    && |r.messages| == |v.messages|
    && (forall i :: 0 <= i < |v.messages| ==> MessageWritten(v.fieldByName, table, Counts(r.groups), v.messages[i], r.messages[i]))
  }

  lemma CoveredMore(fields: map<string, Tag>, es: seq<Entry>, tags: set<Tag>, more: set<Tag>)
    requires Covered(fields, es, tags) && tags <= more
    ensures Covered(fields, es, more)
  {
  }

  method FilterOptional(es: seq<Entry>) returns (r: seq<Entry>)
    ensures r == OptionalOnly(es)
  {
    r := [];
    for i := 0 to |es|
      invariant r == OptionalOnly(es[..i])
    {
      assert es[..i + 1][..i] == es[..i];
      if !es[i].required {
        r := r + [es[i]];
      }
    }
    assert es[..|es|] == es;
  }

  /** A converter that has so far written grounded lines for all that had a turn. */
  ghost predicate Sound(fields: map<string, Tag>, table: Table, out: Output) {
    Emits(fields, table, Output([], {}), out.lines, out)
  }

  /** The list is refused, with this error, after some output. */
  ghost predicate Refused(fields: map<string, Tag>, table: Table, es: seq<Entry>, error: VendorError) {
    exists out :: Resolve(fields, table, es, out) == Err(error)
  }

  /** A component's list, or one of a message's two. */
  ghost predicate Listed(v: Vendor, es: seq<Entry>) {
    || (exists i :: 0 <= i < |v.components| && es == v.components[i].1)
    || (exists i :: 0 <= i < |v.messages| && (es == RequiredOnly(v.messages[i].members) || es == OptionalOnly(v.messages[i].members)))
  }

  ghost predicate RefusedFor(v: Vendor, es: seq<Entry>, error: VendorError) {
    Listed(v, es) && Refused(v.fieldByName, ByName(v.components), es, error)
  }

  method WriteList(c: Converter, es: seq<Entry>) returns (r: Result<seq<RawMember>>)
    requires Sound(c.fields, c.table, c.View())
    modifies c
    ensures r.Err? ==> Refused(c.fields, c.table, es, r.error)
    ensures r.Ok? ==> Sound(c.fields, c.table, c.View()) && old(c.emitted) <= c.emitted
    ensures r.Ok? ==> r.value == Tokens(c.fields, es) && AllKnown(c.fields, c.table, es) && Covered(c.fields, es, c.emitted)
  {
    hide Emits;
    hide Resolve;
    hide Tokens;
    hide AllKnown;
    hide Covered;
    ghost var before := c.View();
    r := c.ResolveMembers(es);
    assert r.Err? ==> Resolve(c.fields, c.table, es, before) == Err(r.error);
    if r.Ok? {
      ResolveTokens(c.fields, c.table, es, before);
      ghost var lines := ResolveEmits(c.fields, c.table, es, before);
      EmitsThen(c.fields, c.table, Output([], {}), before.lines, before, lines, c.View());
      EmitsGrow(c.fields, c.table, before, lines, c.View());
      EmitsLines(c.fields, c.table, before, lines, c.View());
    }
  }

  lemma EmitsLines(fields: map<string, Tag>, table: Table, out: Output, lines: seq<GroupLine>, after: Output)
    requires Emits(fields, table, out, lines, after)
    ensures after.lines == out.lines + lines
  {
  }

  lemma SoundCounts(fields: map<string, Tag>, table: Table, out: Output)
    requires Sound(fields, table, out)
    ensures out.emitted == Counts(out.lines) && DistinctCounts(out.lines)
    ensures forall i :: 0 <= i < |out.lines| ==> Grounded(fields, table, out.lines[i], out.emitted)
  {
  }

  method WriteComponents(c: Converter, components: seq<(string, seq<Entry>)>)
    returns (r: Result<seq<(string, seq<RawMember>)>>, ghost at: nat)
    requires Sound(c.fields, c.table, c.View())
    modifies c
    ensures r.Err? ==> at < |components| && Refused(c.fields, c.table, components[at].1, r.error)
    ensures r.Ok? ==> Sound(c.fields, c.table, c.View()) && |r.value| == |components|
    ensures r.Ok? ==> forall i :: 0 <= i < |components| ==> ComponentWritten(c.fields, c.table, c.emitted, components[i], r.value[i])
  {
    hide Sound;
    hide Refused;
    hide Tokens;
    hide AllKnown;
    hide Covered;
    at := 0;
    var lines := [];
    for i := 0 to |components|
      invariant Sound(c.fields, c.table, c.View()) && |lines| == i
      invariant forall j :: 0 <= j < i ==> ComponentWritten(c.fields, c.table, c.emitted, components[j], lines[j])
    {
      ghost var before := c.emitted;
      var tokens := WriteList(c, components[i].1);
      if tokens.Err? {
        return Err(tokens.error), i;
      }
      forall j | 0 <= j < i ensures ComponentWritten(c.fields, c.table, c.emitted, components[j], lines[j]) {
        CoveredMore(c.fields, components[j].1, before, c.emitted);
      }
      lines := lines + [(components[i].0, tokens.value)];
    }
    r := Ok(lines);
  }

  lemma MessageMore(fields: map<string, Tag>, table: Table, tags: set<Tag>, more: set<Tag>, from: VendorMessage, line: MessageLine)
    requires MessageWritten(fields, table, tags, from, line) && tags <= more
    ensures MessageWritten(fields, table, more, from, line)
  {
    hide Tokens;
    hide AllKnown;
    CoveredMore(fields, RequiredOnly(from.members), tags, more);
    CoveredMore(fields, OptionalOnly(from.members), tags, more);
  }

  method WriteMessage(c: Converter, from: VendorMessage) returns (r: Result<MessageLine>, ghost es: seq<Entry>)
    requires Sound(c.fields, c.table, c.View())
    modifies c
    ensures r.Err? ==> Refused(c.fields, c.table, es, r.error)
    ensures r.Err? ==> es == RequiredOnly(from.members) || es == OptionalOnly(from.members)
    ensures r.Ok? ==> Sound(c.fields, c.table, c.View()) && old(c.emitted) <= c.emitted
    ensures r.Ok? ==> MessageWritten(c.fields, c.table, c.emitted, from, r.value)
  {
    hide Sound;
    hide Refused;
    hide Tokens;
    hide AllKnown;
    hide Covered;
    es := [];
    var requiredEntries := FilterRequired(from.members);
    var required := WriteList(c, requiredEntries);
    if required.Err? {
      return Err(required.error), requiredEntries;
    }
    ghost var before := c.emitted;
    var optionalEntries := FilterOptional(from.members);
    var optional := WriteList(c, optionalEntries);
    if optional.Err? {
      return Err(optional.error), optionalEntries;
    }
    CoveredMore(c.fields, requiredEntries, before, c.emitted);
    r := Ok(MessageLine(from.msgType, from.name, required.value, optional.value));
  }

  method WriteMessages(c: Converter, messages: seq<VendorMessage>)
    returns (r: Result<seq<MessageLine>>, ghost at: nat, ghost es: seq<Entry>)
    requires Sound(c.fields, c.table, c.View())
    modifies c
    ensures r.Err? ==> at < |messages| && Refused(c.fields, c.table, es, r.error)
    ensures r.Err? ==> es == RequiredOnly(messages[at].members) || es == OptionalOnly(messages[at].members)
    ensures r.Ok? ==> Sound(c.fields, c.table, c.View()) && |r.value| == |messages| && old(c.emitted) <= c.emitted
    ensures r.Ok? ==> forall i :: 0 <= i < |messages| ==> MessageWritten(c.fields, c.table, c.emitted, messages[i], r.value[i])
  {
    hide Sound;
    hide Refused;
    hide MessageWritten;
    at, es := 0, [];
    var lines := [];
    for i := 0 to |messages|
      invariant Sound(c.fields, c.table, c.View()) && |lines| == i && old(c.emitted) <= c.emitted
      invariant forall j :: 0 <= j < i ==> MessageWritten(c.fields, c.table, c.emitted, messages[j], lines[j])
    {
      ghost var before := c.emitted;
      var line, list := WriteMessage(c, messages[i]);
      if line.Err? {
        return Err(line.error), i, list;
      }
      forall j | 0 <= j < i ensures MessageWritten(c.fields, c.table, c.emitted, messages[j], lines[j]) {
        MessageMore(c.fields, c.table, before, c.emitted, messages[j], lines[j]);
      }
      lines := lines + [line.value];
    }
    r := Ok(lines);
  }

  method Render(v: Vendor) returns (r: Result<Rendered>, ghost es: seq<Entry>)
    ensures r.Ok? ==> WellRendered(v, r.value)
    ensures r.Err? ==> RefusedFor(v, es, r.error)
  {
    hide Grounded;
    hide Tokens;
    hide AllKnown;
    hide Covered;
    hide ByName;
    hide MessageWritten;
    hide Sound;
    hide Refused;
    es := [];
    var c := new Converter(v.fieldByName, ByName(v.components));
    assert Sound(c.fields, c.table, c.View()) by { StartsSound(c.fields, c.table); }
    var components, at := WriteComponents(c, v.components);
    if components.Err? {
      return Err(components.error), v.components[at].1;
    }
    ghost var before := c.emitted;
    var messages, which, list := WriteMessages(c, v.messages);
    if messages.Err? {
      return Err(messages.error), list;
    }
    SoundCounts(c.fields, c.table, c.View());
    forall i | 0 <= i < |v.components| ensures ComponentWritten(c.fields, c.table, c.emitted, v.components[i], components.value[i]) {
      CoveredMore(c.fields, v.components[i].1, before, c.emitted);
    }
    r := Ok(Rendered(c.lines, components.value, messages.value));
  }

  lemma StartsSound(fields: map<string, Tag>, table: Table)
    ensures Sound(fields, table, Output([], {}))
  {
    EmitsNothing(fields, table, Output([], {}));
  }
}
