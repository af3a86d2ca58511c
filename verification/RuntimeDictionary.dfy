/** From the lines the runtime reader has collected to a dictionary: components resolved, member lists
    expanded, child dictionaries built and group members collected (`truefix-dict/src/parser.rs:300-373,
    433-486`). */
module RuntimeDictionary {
  import opened Decimal
  import opened FieldMaps
  import opened Dictionary
  import opened Graphs
  import opened GroupClosure
  import opened Components
  import opened Merging
  import opened DictionaryLines
  import opened RuntimeTrack

  const MAX_DEPTH: nat := 16

  /** A group's delimiter and expanded members. */
  datatype Shape = Shape(delimiter: Tag, members: seq<Tag>)

  type Shapes = map<Tag, Shape>

  // ------------------------------------------------------------ child dictionaries

  function Restricted<V>(fields: map<Tag, V>, members: seq<Tag>): map<Tag, V> {
    map t | t in fields && t in members :: fields[t]
  }

  method RestrictTo<V>(fields: map<Tag, V>, members: seq<Tag>) returns (own: map<Tag, V>)
    ensures own == Restricted(fields, members)
  {
    own := map[];
    for i := 0 to |members|
      invariant own == Restricted(fields, members[..i])
    {
      if members[i] in fields {
        own := own[members[i] := fields[members[i]]];
      }
      assert members[..i + 1] == members[..i] + [members[i]];
    }
    assert members[..|members|] == members;
  }

  /** The names of the given fields. */
  function NamesOf(fields: map<Tag, FieldDef>, names: map<string, Tag>): map<string, Tag> {
    map n | n in names && names[n] in fields :: names[n]
  }

  function ChildOf(members: seq<Tag>, fields: map<Tag, FieldDef>, names: map<string, Tag>, shapes: Shapes, depth: nat): Option<Dict>
    decreases MAX_DEPTH + 1 - depth, 0
  {
    if depth > MAX_DEPTH || Restricted(fields, members) == map[] then None else
    var own := Restricted(fields, members);
    Some(Dict("", own, NamesOf(own, names), map[], {}, {}, ChildGroups(members, fields, names, shapes, depth), map[]))
  }

  function ChildGroups(members: seq<Tag>, fields: map<Tag, FieldDef>, names: map<string, Tag>, shapes: Shapes, depth: nat): map<Tag, GroupDef>
    requires depth <= MAX_DEPTH
    decreases MAX_DEPTH - depth, 1
  {
    map t | t in shapes && t in members ::
      GroupDef(shapes[t].delimiter, shapes[t].members, [], ChildOf(shapes[t].members, fields, names, shapes, depth + 1))
  }

  method IndexNames(fields: map<Tag, FieldDef>, ghost all: map<Tag, FieldDef>, ghost names: map<string, Tag>)
    returns (r: map<string, Tag>)
    requires Inverse(all, names) && SubMap(fields, all)
    ensures r == NamesOf(fields, names)
  {
    r := map[];
    var todo := fields.Keys;
    while todo != {}
      invariant todo <= fields.Keys
      invariant forall t :: t in fields && t !in todo ==> fields[t].name in r
      invariant forall n :: n in r ==> n in names && r[n] == names[n] && names[n] in fields
      decreases todo
    {
      var t :| t in todo;
      r := r[fields[t].name := fields[t].tag];
      todo := todo - {t};
    }
    forall n | n in names && names[n] in fields ensures n in r {
      assert all[names[n]].name == n;
    }
  }

  method BuildChild(members: seq<Tag>, fields: map<Tag, FieldDef>, ghost names: map<string, Tag>, shapes: Shapes, depth: nat)
    returns (r: Option<Dict>)
    requires Inverse(fields, names)
    ensures r == ChildOf(members, fields, names, shapes, depth)
    decreases MAX_DEPTH + 1 - depth, 0
  {
    if depth > MAX_DEPTH {
      return None;
    }
    var own := RestrictTo(fields, members);
    if own == map[] {
      return None;
    }
    var byName := IndexNames(own, fields, names);
    var groups := BuildChildGroups(members, fields, names, shapes, depth);
    r := Some(Dict("", own, byName, map[], {}, {}, groups, map[]));
  }

  method BuildChildGroups(members: seq<Tag>, fields: map<Tag, FieldDef>, ghost names: map<string, Tag>, shapes: Shapes, depth: nat)
    returns (groups: map<Tag, GroupDef>)
    requires Inverse(fields, names) && depth <= MAX_DEPTH
    ensures groups == ChildGroups(members, fields, names, shapes, depth)
    decreases MAX_DEPTH - depth, 1
  {
    hide Inverse;
    hide ChildOf;
    groups := map[];
    for i := 0 to |members|
      invariant groups == ChildGroups(members[..i], fields, names, shapes, depth)
    {
      var t := members[i];
      if t in shapes {
        var nested := BuildChild(shapes[t].members, fields, names, shapes, depth + 1);
        groups := groups[t := GroupDef(shapes[t].delimiter, shapes[t].members, [], nested)];
      }
      assert members[..i + 1] == members[..i] + [t];
    }
    assert members[..|members|] == members;
  }

  // ------------------------------------------------------------ what the reader should produce

  ghost predicate Compiles(s: Raw) {
    && s.version.Some?
    && Closed(s.components) && Acyclic(RefGraph(s.components))
    && (forall c :: c in s.groups ==> Refers(s.components, s.groups[c].members) && Refers(s.components, s.groups[c].required))
    && (forall k :: k in s.messages ==> Refers(s.components, s.messages[k].required) && Refers(s.components, s.messages[k].optional))
  }

  function ShapesOf(groups: map<Tag, GroupDef>): Shapes {
    map c | c in groups :: Shape(groups[c].delimiter, groups[c].members)
  }

  ghost predicate GroupCompiled(s: Raw, shapes: Shapes, c: Tag, g: GroupDef)
    requires c in s.groups
  {
    && g.delimiter == s.groups[c].delimiter
    && ExpandsMembers(s.components, s.groups[c].members, g.members)
    && ExpandsMembers(s.components, s.groups[c].required, g.required)
    && g.child == ChildOf(g.members, s.fields, s.fieldByName, shapes, 0)
  }

  ghost predicate MessageCompiled(s: Raw, groups: Groups, k: string, m: MessageDef)
    requires k in s.messages
  {
    && m.msgType == k && m.name == s.messages[k].name
    && ExpandsMembers(s.components, s.messages[k].required, m.required)
    && ExpandsMembers(s.components, s.messages[k].optional, m.optional)
    && m.fieldOrder == (if s.messages[k].ordered then Some(m.required + m.optional) else None)
    && m.memberTags == MemberTags(groups, m)
  }

  ghost predicate IsCompiled(s: Raw, d: Dict) {
    && s.version == Some(d.version)
    && d.fields == s.fields && d.fieldByName == s.fieldByName
    && d.header == s.header && d.trailer == s.trailer
    && IsResolution(s.components, d.components)
    && d.groups.Keys == s.groups.Keys
    && (forall c :: c in s.groups ==> GroupCompiled(s, ShapesOf(d.groups), c, d.groups[c]))
    && d.messages.Keys == s.messages.Keys
    && (forall k :: k in s.messages ==> MessageCompiled(s, d.groups, k, d.messages[k]))
  }

  // ------------------------------------------------------------ the reader

  datatype Expanded = Expanded(delimiter: Tag, members: seq<Tag>, required: seq<Tag>)

  ghost predicate GroupExpanded(raw: RawComponents, from: RawGroup, g: Expanded) {
    && g.delimiter == from.delimiter
    && ExpandsMembers(raw, from.members, g.members) && ExpandsMembers(raw, from.required, g.required)
  }

  method ExpandGroup(raw: RawComponents, from: RawGroup, table: map<string, seq<Tag>>) returns (r: Outcome<Expanded>)
    requires IsResolution(raw, table)
    ensures r.Success? <==> Refers(raw, from.members) && Refers(raw, from.required)
    ensures r.Success? ==> GroupExpanded(raw, from, r.value)
    ensures r.Failure? ==> r.error.UnknownComponent? && r.error.name !in raw
  {
    ExpandedList(raw, table, from.members);
    ExpandedList(raw, table, from.required);
    var members := Expand(from.members, table);
    if members.Failure? {
      return Failure(members.error);
    }
    var required := Expand(from.required, table);
    if required.Failure? {
      return Failure(required.error);
    }
    r := Success(Expanded(from.delimiter, members.value, required.value));
  }

  method ExpandGroups(raw: RawComponents, groups: map<Tag, RawGroup>, table: map<string, seq<Tag>>)
    returns (r: Outcome<map<Tag, Expanded>>)
    requires IsResolution(raw, table)
    ensures r.Success? <==> forall c :: c in groups ==> Refers(raw, groups[c].members) && Refers(raw, groups[c].required)
    ensures r.Success? ==> r.value.Keys == groups.Keys && forall c :: c in groups ==> GroupExpanded(raw, groups[c], r.value[c])
    ensures r.Failure? ==> r.error.UnknownComponent? && r.error.name !in raw
  {
    hide Refers;
    hide GroupExpanded;
    hide IsResolution;
    var out: map<Tag, Expanded> := map[];
    var todo := groups.Keys;
    while todo != {}
      invariant todo <= groups.Keys && out.Keys == groups.Keys - todo
      invariant forall c :: c in out ==> GroupExpanded(raw, groups[c], out[c])
      invariant forall c :: c in out ==> Refers(raw, groups[c].members) && Refers(raw, groups[c].required)
      decreases todo
    {
      var c :| c in todo;
      var g := ExpandGroup(raw, groups[c], table);
      if g.Failure? {
        return Failure(g.error);
      }
      out := out[c := g.value];
      todo := todo - {c};
    }
    r := Success(out);
  }

  /** Child dictionaries for all groups. */
  method BuildGroups(expanded: map<Tag, Expanded>, fields: map<Tag, FieldDef>, ghost names: map<string, Tag>)
    returns (groups: map<Tag, GroupDef>)
    requires Inverse(fields, names)
    ensures groups.Keys == expanded.Keys
    ensures forall c :: c in groups ==>
              groups[c] == GroupDef(expanded[c].delimiter, expanded[c].members, expanded[c].required,
                                    ChildOf(expanded[c].members, fields, names, ShapesOf(groups), 0))
  {
    hide Inverse;
    hide ChildOf;
    var shapes := map c | c in expanded :: Shape(expanded[c].delimiter, expanded[c].members);
    groups := map[];
    var todo := expanded.Keys;
    while todo != {}
      invariant todo <= expanded.Keys && groups.Keys == expanded.Keys - todo
      invariant forall c :: c in groups ==>
                  groups[c] == GroupDef(expanded[c].delimiter, expanded[c].members, expanded[c].required,
                                        ChildOf(expanded[c].members, fields, names, shapes, 0))
      decreases todo
    {
      var c :| c in todo;
      var child := BuildChild(expanded[c].members, fields, names, shapes, 0);
      groups := groups[c := GroupDef(expanded[c].delimiter, expanded[c].members, expanded[c].required, child)];
      todo := todo - {c};
    }
    assert shapes == ShapesOf(groups);
  }

  method BuildMessage(raw: RawComponents, k: string, from: RawMessage, table: map<string, seq<Tag>>, groups: Groups)
    returns (r: Outcome<MessageDef>)
    requires IsResolution(raw, table)
    ensures r.Success? <==> Refers(raw, from.required) && Refers(raw, from.optional)
    ensures r.Success? ==>
              var m := r.value;
              && m.msgType == k && m.name == from.name
              && ExpandsMembers(raw, from.required, m.required) && ExpandsMembers(raw, from.optional, m.optional)
              && m.fieldOrder == (if from.ordered then Some(m.required + m.optional) else None)
              && m.memberTags == MemberTags(groups, m)
    ensures r.Failure? ==> r.error.UnknownComponent? && r.error.name !in raw
  {
    ExpandedList(raw, table, from.required);
    ExpandedList(raw, table, from.optional);
    hide Closure;
    var required := Expand(from.required, table);
    if required.Failure? {
      return Failure(required.error);
    }
    var optional := Expand(from.optional, table);
    if optional.Failure? {
      return Failure(optional.error);
    }
    var order := if from.ordered then Some(required.value + optional.value) else None;
    var tags := CollectAll(groups, required.value + optional.value);
    r := Success(MessageDef(k, from.name, required.value, optional.value, tags, order));
  }

  method BuildMessages(s: Raw, table: map<string, seq<Tag>>, groups: Groups) returns (r: Outcome<map<string, MessageDef>>)
    requires IsResolution(s.components, table)
    ensures r.Success? <==> forall k :: k in s.messages ==>
                              Refers(s.components, s.messages[k].required) && Refers(s.components, s.messages[k].optional)
    ensures r.Success? ==> r.value.Keys == s.messages.Keys
    ensures r.Success? ==> forall k :: k in s.messages ==> MessageCompiled(s, groups, k, r.value[k])
    ensures r.Failure? ==> r.error.UnknownComponent? && r.error.name !in s.components
  {
    hide Refers;
    hide IsResolution;
    hide ExpandsMembers;
    hide MemberTags;
    var out: map<string, MessageDef> := map[];
    var todo := s.messages.Keys;
    while todo != {}
      invariant todo <= s.messages.Keys && out.Keys == s.messages.Keys - todo
      invariant forall k :: k in out ==> MessageCompiled(s, groups, k, out[k])
      invariant forall k :: k in out ==>
                  Refers(s.components, s.messages[k].required) && Refers(s.components, s.messages[k].optional)
      decreases todo
    {
      var k :| k in todo;
      var m := BuildMessage(s.components, k, s.messages[k], table, groups);
      if m.Failure? {
        return Failure(m.error);
      }
      out := out[k := m.value];
      todo := todo - {k};
    }
    r := Success(out);
  }

  /** A failure is a missing version, a circular component or a reference to a component defined nowhere. */
  ghost predicate Blames(s: Raw, e: RuntimeError) {
    match e
    case MissingVersion => s.version.None?
    case Unresolved(ComponentCycle(n)) => Reaches(RefGraph(s.components), n, n)
    case Unresolved(UnknownComponent(n)) => n !in s.components
    case _ => false
  }

  method Compile(s: Raw) returns (r: Parsed<Dict, RuntimeError>)
    requires Inverse(s.fields, s.fieldByName)
    ensures r.Good? <==> Compiles(s)
    ensures r.Good? ==> IsCompiled(s, r.value)
    ensures r.Bad? ==> Blames(s, r.error)
  {
    hide Inverse;
    hide Refers;
    hide Closed;
    hide Acyclic;
    hide ExpandsMembers;
    hide ChildOf;
    hide MessageCompiled;
    if s.version.None? {
      return Bad(MissingVersion);
    }
    var order := ListNames(s.components);
    var resolved := ResolveAll(s.components, order);
    if resolved.Failure? {
      return Bad(Unresolved(resolved.error));
    }
    var table := resolved.value;
    var expanded := ExpandGroups(s.components, s.groups, table);
    if expanded.Failure? {
      return Bad(Unresolved(expanded.error));
    }
    var groups := BuildGroups(expanded.value, s.fields, s.fieldByName);
    forall c | c in s.groups ensures GroupCompiled(s, ShapesOf(groups), c, groups[c]) {
      assert GroupExpanded(s.components, s.groups[c], expanded.value[c]);
    }
    var messages := BuildMessages(s, table, groups);
    if messages.Failure? {
      return Bad(Unresolved(messages.error));
    }
    r := Good(Dict(s.version.value, s.fields, s.fieldByName, messages.value, s.header, s.trailer, groups, table));
  }

  // ------------------------------------------------------------ what is read is well formed

  lemma InsertInverse(fields: map<Tag, FieldDef>, names: map<string, Tag>, def: FieldDef)
    requires Inverse(fields, names) && def.tag !in fields && def.name !in names
    ensures Inverse(fields[def.tag := def], names[def.name := def.tag])
  {
  }

  lemma FieldInverse(s: Raw, args: seq<string>, line: nat)
    requires Inverse(s.fields, s.fieldByName) && StepField(s, args, line).Good?
    ensures var t := StepField(s, args, line).value; Inverse(t.fields, t.fieldByName)
  {
    hide Inverse;
    hide KnownType;
    hide ParseTag;
    hide ReadValues;
    hide ReadLabels;
    InsertInverse(s.fields, s.fieldByName, FieldOf(args, ParseTag(args[0]).value));
  }

  lemma StepInverse(s: Raw, words: Line, line: nat)
    requires Inverse(s.fields, s.fieldByName) && StepLine(s, words, line).Good?
    ensures var t := StepLine(s, words, line).value; Inverse(t.fields, t.fieldByName)
  {
    hide Inverse;
    hide DirectiveOf;
    hide StepField;
    hide ReadMeta;
    hide ReadTags;
    hide ReadModifiers;
    hide ReadRequired;
    hide MemberList;
    hide ParseTag;
    hide FieldOf;
    hide KnownType;
    if words != [] {
      match DirectiveOf(words[0])
      case FieldLine => FieldInverse(s, words[1..], line);
      case MessageLine =>
      case GroupLine =>
      case HeaderLine =>
      case TrailerLine =>
      case _ =>
    }
  }

  /** Whatever the lines, fields and names stay each other's inverse. */
  lemma {:induction false} LinesInverse(doc: seq<Line>)
    requires Lines(doc).Good?
    ensures Inverse(Lines(doc).value.fields, Lines(doc).value.fieldByName)
  {
    hide StepLine;
    hide Inverse;
    if doc == [] {
      assert Inverse(EMPTY.fields, EMPTY.fieldByName) by { EmptyInverse(); }
    } else {
      LinesInverse(doc[..|doc| - 1]);
      StepInverse(Lines(doc[..|doc| - 1]).value, doc[|doc| - 1], |doc|);
    }
  }

  lemma EmptyInverse()
    ensures Inverse(map[], map[])
  {
  }

  /** A child dictionary holds exactly the known members, as the enclosing dictionary defines them, and there is
      none just when no member is known. */
  lemma ChildFields(members: seq<Tag>, fields: map<Tag, FieldDef>, names: map<string, Tag>, shapes: Shapes)
    ensures var r := ChildOf(members, fields, names, shapes, 0);
            && (r.None? <==> forall t :: t in members ==> t !in fields)
            && (r.Some? ==> r.value.fields.Keys == (set t | t in fields && t in members))
            && (r.Some? ==> SubMap(r.value.fields, fields))
  {
    var own := Restricted(fields, members);
    if exists t :: t in members && t in fields {
      var t :| t in members && t in fields;
      assert t in own;
    }
  }

  /** Its names are those of its fields, and its groups are the groups among the members, each with its own child one
      level further down, to the depth cap. */
  lemma ChildGroupsAre(members: seq<Tag>, fields: map<Tag, FieldDef>, names: map<string, Tag>, shapes: Shapes, depth: nat)
    requires Inverse(fields, names)
    ensures var r := ChildOf(members, fields, names, shapes, depth);
            && (depth > MAX_DEPTH ==> r.None?)
            && (r.Some? ==>
                  && NamesInverse(r.value) && r.value.messages == map[] && r.value.header == {} && r.value.trailer == {}
                  && (forall t :: t in r.value.groups <==> t in members && t in shapes)
                  && (forall t :: t in r.value.groups ==>
                        && r.value.groups[t].delimiter == shapes[t].delimiter && r.value.groups[t].members == shapes[t].members
                        && r.value.groups[t].required == []
                        && r.value.groups[t].child == ChildOf(shapes[t].members, fields, names, shapes, depth + 1)))
  {
  }

  lemma CompiledWellFormed(s: Raw, d: Dict)
    requires Inverse(s.fields, s.fieldByName) && IsCompiled(s, d)
    ensures WellFormed(d)
  {
    hide Inverse;
    hide ChildOf;
    hide ExpandsMembers;
    hide MemberTags;
    hide IsResolution;
    forall c | c in d.groups && d.groups[c].child.Some?
      ensures SubMap(d.groups[c].child.value.fields, d.fields)
    {
      ChildFields(d.groups[c].members, s.fields, s.fieldByName, ShapesOf(d.groups));
    }
  }

  ghost predicate Accepts(doc: seq<Line>) {
    Lines(doc).Good? && Compiles(Lines(doc).value)
  }

  /** The runtime reader, whole: it accepts exactly the documents described, gives what the lines say, and the
      dictionary it gives is well formed. */
  method ParseDictionary(doc: seq<Line>) returns (r: Parsed<Dict, RuntimeError>)
    ensures r.Good? <==> Accepts(doc)
    ensures r.Good? ==> IsCompiled(Lines(doc).value, r.value) && WellFormed(r.value)
    ensures r.Bad? ==> match Lines(doc) case Bad(e) => r.error == e case Good(s) => Blames(s, r.error)
  {
    hide Inverse;
    hide IsCompiled;
    hide Compiles;
    hide WellFormed;
    hide Lines;
    var raw := ReadLines(doc);
    if raw.Bad? {
      return Bad(raw.error);
    }
    LinesInverse(doc);
    r := Compile(raw.value);
    if r.Good? {
      CompiledWellFormed(raw.value, r.value);
    }
  }
}
