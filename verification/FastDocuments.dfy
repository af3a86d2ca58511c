/** What a FAST template document means, and that the stack machine computes it
    (`truefix-dict/src/fast_template.rs:216-326`). A document is any well-nested XML tree of template, group,
    field and unrecognised elements; the machine sees only its flat stream of events. */
module FastDocuments {
  import opened Decimal
  import opened FastTemplates

  /** An element inside a template. Fields may have content (an operator element, say); unrecognised elements
      are looked through. */
  datatype Node =
    | FieldNode(info: FieldInfo, content: seq<Node>)
    | GroupNode(info: FieldInfo, members: seq<Node>)
    | EmptyGroup(info: FieldInfo)
    | OtherNode(content: seq<Node>)

  /** An element outside any template. */
  datatype Doc =
    | TemplateDoc(id: nat, name: string, body: seq<Node>)
    | EmptyTemplate(id: nat, name: string)
    | Wrapper(docs: seq<Doc>)
    | Stray(node: Node)

  // ------------------------------------------------------------ the events of a document

  function NodeEvents(n: Node): seq<Event>
    decreases n, 0
  {
    match n
    case FieldNode(info, content) => [FieldStart(info)] + NodesEvents(content) + [Ignored]
    case GroupNode(info, members) => [GroupStart(info, false)] + NodesEvents(members) + [GroupEnd]
    case EmptyGroup(info) => [GroupStart(info, true)]
    case OtherNode(content) => [Ignored] + NodesEvents(content) + [Ignored]
  }

  function NodesEvents(ns: seq<Node>): seq<Event>
    decreases ns, 1
  {
    if ns == [] then [] else NodeEvents(ns[0]) + NodesEvents(ns[1..])
  }

  function DocEvents(d: Doc): seq<Event>
    decreases d, 0
  {
    match d
    case TemplateDoc(id, name, body) => [TemplateStart(id, name, false)] + NodesEvents(body) + [TemplateEnd]
    case EmptyTemplate(id, name) => [TemplateStart(id, name, true)]
    case Wrapper(docs) => [Ignored] + DocsEvents(docs) + [Ignored]
    case Stray(node) => NodeEvents(node)
  }

  function DocsEvents(ds: seq<Doc>): seq<Event>
    decreases ds, 1
  {
    if ds == [] then [] else DocEvents(ds[0]) + DocsEvents(ds[1..])
  }

  // ------------------------------------------------------------ the meaning of a document

  function Plain(info: FieldInfo): FieldDef {
    FieldDef(info, None)
  }

  function GroupField(info: FieldInfo, members: seq<FieldDef>): FieldDef {
    FieldDef(info, Some(GroupDef(Plain(info), members)))
  }

  /** The fields an element contributes to whatever encloses it. */
  function Fields(n: Node): seq<FieldDef>
    decreases n, 0
  {
    match n
    case FieldNode(info, content) => [Plain(info)] + AllFields(content)
    case GroupNode(info, members) => [GroupField(info, AllFields(members))]
    case EmptyGroup(info) => [GroupField(info, [])]
    case OtherNode(content) => AllFields(content)
  }

  function AllFields(ns: seq<Node>): seq<FieldDef>
    decreases ns, 1
  {
    if ns == [] then [] else Fields(ns[0]) + AllFields(ns[1..])
  }

  function Templates(d: Doc): seq<Template>
    decreases d, 0
  {
    match d
    case TemplateDoc(id, name, body) => [Template(id, name, AllFields(body))]
    case EmptyTemplate(id, name) => [Template(id, name, [])]
    case Wrapper(docs) => AllTemplates(docs)
    case Stray(_) => []
  }

  function AllTemplates(ds: seq<Doc>): seq<Template>
    decreases ds, 1
  {
    if ds == [] then [] else Templates(ds[0]) + AllTemplates(ds[1..])
  }

  /** Adding templates one at a time, stopping at the first id already taken. */
  function AddAll(known: map<nat, Template>, ts: seq<Template>): Result<map<nat, Template>>
    decreases |ts|
  {
    if ts == [] then Ok(known)
    else if ts[0].id in known then Err(DuplicateTemplateId(ts[0].id))
    else AddAll(known[ts[0].id := ts[0]], ts[1..])
  }

  // ------------------------------------------------------------ inside a template

  /** Pushing fields one after the other onto the innermost open group or template. */
  function PushAll(s: State, fs: seq<FieldDef>): State {
    if s.groups != [] then
      var top := s.groups[|s.groups| - 1];
      s.(groups := s.groups[..|s.groups| - 1] + [top.(members := top.members + fs)])
    else if s.current.Some? then
      s.(current := Some(s.current.value.(fields := s.current.value.fields + fs)))
    else s
  }

  lemma PushAllAppend(s: State, a: seq<FieldDef>, b: seq<FieldDef>)
    ensures PushAll(PushAll(s, a), b) == PushAll(s, a + b)
  {
    if s.groups != [] {
      var top := s.groups[|s.groups| - 1];
      assert (top.members + a) + b == top.members + (a + b);
      var t := PushAll(s, a);
      assert t.groups[..|t.groups| - 1] == s.groups[..|s.groups| - 1];
    } else if s.current.Some? {
      var f := s.current.value.fields;
      assert (f + a) + b == f + (a + b);
    }
  }

  lemma PushNone(s: State)
    ensures PushAll(s, []) == s
  {
    if s.groups != [] {
      var top := s.groups[|s.groups| - 1];
      assert top.members + [] == top.members;
      assert s.groups[..|s.groups| - 1] + [top] == s.groups;
    } else if s.current.Some? {
      assert s.current.value.fields + [] == s.current.value.fields;
    }
  }

  lemma PushOne(s: State, f: FieldDef)
    ensures PushField(s, f) == PushAll(s, [f])
  {
  }

  /** Opening a group, pushing its members and closing it pushes the group field. */
  lemma OpenFillClose(s: State, info: FieldInfo, members: seq<FieldDef>)
    ensures FinishGroup(PushAll(s.(groups := s.groups + [GroupFrame(Plain(info), [])]), members))
         == PushAll(s, [GroupField(info, members)])
  {
    var open := s.(groups := s.groups + [GroupFrame(Plain(info), [])]);
    var full := PushAll(open, members);
    assert [] + members == members;
    assert full.groups == s.groups + [GroupFrame(Plain(info), members)];
    assert full.groups[..|full.groups| - 1] == s.groups;
    assert full.(groups := s.groups) == s;
    PushOne(s, GroupField(info, members));
  }

  /** The events between a start and an end event. */
  lemma RunBracket(s: State, first: Event, middle: seq<Event>, last: Event, t: State, u: State)
    requires Step(s, first) == Ok(t) && Run(t, middle) == Ok(u)
    ensures Run(s, [first] + middle + [last]) == Step(u, last)
  {
    hide Step;
    RunOne(s, first);
    RunAppend(s, [first], middle);
    RunAppend(s, [first] + middle, [last]);
    RunOne(u, last);
  }

  lemma {:induction false} NodeRuns(s: State, n: Node)
    ensures Run(s, NodeEvents(n)) == Ok(PushAll(s, Fields(n)))
    decreases n, 0
  {
    hide Run;
    hide PushAll;
    hide PushField;
    hide FinishGroup;
    match n
    case FieldNode(info, content) =>
      var t := PushField(s, Plain(info));
      PushOne(s, Plain(info));
      NodesRun(t, content);
      PushAllAppend(s, [Plain(info)], AllFields(content));
      RunBracket(s, FieldStart(info), NodesEvents(content), Ignored, t, PushAll(t, AllFields(content)));
    case GroupNode(info, members) =>
      var t := s.(groups := s.groups + [GroupFrame(Plain(info), [])]);
      NodesRun(t, members);
      OpenFillClose(s, info, AllFields(members));
      RunBracket(s, GroupStart(info, false), NodesEvents(members), GroupEnd, t, PushAll(t, AllFields(members)));
    case EmptyGroup(info) =>
      var t := s.(groups := s.groups + [GroupFrame(Plain(info), [])]);
      PushNone(t);
      OpenFillClose(s, info, []);
      RunOne(s, GroupStart(info, true));
    case OtherNode(content) =>
      NodesRun(s, content);
      RunBracket(s, Ignored, NodesEvents(content), Ignored, s, PushAll(s, AllFields(content)));
  }

  /** From any enclosing stack, the events of nested elements push exactly the fields they mean. */
  lemma {:induction false} NodesRun(s: State, ns: seq<Node>)
    ensures Run(s, NodesEvents(ns)) == Ok(PushAll(s, AllFields(ns)))
    decreases ns, 1
  {
    hide PushAll;
    hide Step;
    if ns == [] {
      PushNone(s);
    } else {
      NodeRuns(s, ns[0]);
      var t := PushAll(s, Fields(ns[0]));
      RunAppend(s, NodeEvents(ns[0]), NodesEvents(ns[1..]));
      NodesRun(t, ns[1..]);
      PushAllAppend(s, Fields(ns[0]), AllFields(ns[1..]));
    }
  }

  // ------------------------------------------------------------ outside templates

  ghost predicate Outside(s: State) {
    s.current == None && s.groups == []
  }

  function Known(known: Result<map<nat, Template>>): Result<State> {
    match known
    case Ok(m) => Ok(State(m, None, []))
    case Err(e) => Err(e)
  }

  lemma {:induction false} AddAllAppend(known: map<nat, Template>, a: seq<Template>, b: seq<Template>)
    ensures AddAll(known, a + b) == if AddAll(known, a).Ok? then AddAll(AddAll(known, a).value, b) else AddAll(known, a)
    decreases |a|
  {
    if a == [] {
      assert a + b == b;
    } else {
      assert (a + b)[0] == a[0] && (a + b)[1..] == a[1..] + b;
      if a[0].id !in known {
        AddAllAppend(known[a[0].id := a[0]], a[1..], b);
      }
    }
  }

  lemma AddOne(known: map<nat, Template>, t: Template)
    ensures AddAll(known, [t]) == if t.id in known then Err(DuplicateTemplateId(t.id)) else Ok(known[t.id := t])
  {
    assert [t][1..] == [];
  }

  lemma TemplateRuns(s: State, id: nat, name: string, body: seq<Node>)
    requires Outside(s)
    ensures Run(s, DocEvents(TemplateDoc(id, name, body)))
         == Known(AddAll(s.templates, [Template(id, name, AllFields(body))]))
  {
    hide AddAll;
    var first := TemplateStart(id, name, false);
    var t := s.(current := Some(Template(id, name, [])));
    AddOne(s.templates, Template(id, name, AllFields(body)));
    NodesRun(t, body);
    assert [] + AllFields(body) == AllFields(body);
    if id in s.templates {
      var rest := NodesEvents(body) + [TemplateEnd];
      assert [first] + NodesEvents(body) + [TemplateEnd] == [first] + rest;
      RunOne(s, first);
      RunAppend(s, [first], rest);
    } else {
      RunBracket(s, first, NodesEvents(body), TemplateEnd, t, PushAll(t, AllFields(body)));
    }
  }

  lemma {:induction false} DocRuns(s: State, d: Doc)
    requires Outside(s)
    ensures Run(s, DocEvents(d)) == Known(AddAll(s.templates, Templates(d)))
    decreases d, 0
  {
    hide Run;
    hide AddAll;
    match d
    case TemplateDoc(id, name, body) => TemplateRuns(s, id, name, body);
    case EmptyTemplate(id, name) =>
      RunOne(s, TemplateStart(id, name, true));
      AddOne(s.templates, Template(id, name, []));
    case Wrapper(docs) => WrapperRuns(s, docs);
    case Stray(node) =>
      NodeRuns(s, node);
      assert AddAll(s.templates, []) == Ok(s.templates) by { AddNone(s.templates); }
  }

  lemma AddNone(known: map<nat, Template>)
    ensures AddAll(known, []) == Ok(known)
  {
  }

  lemma {:induction false} WrapperRuns(s: State, docs: seq<Doc>)
    requires Outside(s)
    ensures Run(s, [Ignored] + DocsEvents(docs) + [Ignored]) == Known(AddAll(s.templates, AllTemplates(docs)))
    decreases docs, 2
  {
    hide AddAll;
    DocsRun(s, docs);
    RunOne(s, Ignored);
    RunAppend(s, [Ignored], DocsEvents(docs));
    RunAppend(s, [Ignored] + DocsEvents(docs), [Ignored]);
    match Run(s, DocsEvents(docs))
    case Ok(u) => RunOne(u, Ignored);
    case Err(_) =>
  }

  /** The machine's run over any well-nested document is the document's meaning: it adds its templates, fails
      at the first repeated id with that id, and ends outside all templates and groups. */
  lemma {:induction false} DocsRun(s: State, ds: seq<Doc>)
    requires Outside(s)
    ensures Run(s, DocsEvents(ds)) == Known(AddAll(s.templates, AllTemplates(ds)))
    decreases ds, 1
  {
    hide Step;
    if ds != [] {
      DocRuns(s, ds[0]);
      RunAppend(s, DocEvents(ds[0]), DocsEvents(ds[1..]));
      AddAllAppend(s.templates, Templates(ds[0]), AllTemplates(ds[1..]));
      match AddAll(s.templates, Templates(ds[0]))
      case Ok(m) => DocsRun(State(m, None, []), ds[1..]);
      case Err(_) =>
    }
  }

  // ------------------------------------------------------------ distinct ids

  ghost predicate DistinctIds(ts: seq<Template>) {
    forall i, j :: 0 <= i < j < |ts| ==> ts[i].id != ts[j].id
  }

  /** The table holds exactly the listed templates, by id. */
  ghost predicate Tabulates(m: map<nat, Template>, ts: seq<Template>) {
    && (forall t :: t in ts ==> t.id in m && m[t.id] == t)
    && (forall k :: k in m ==> m[k] in ts && m[k].id == k)
  }

  lemma {:induction false} AddAllMeans(known: map<nat, Template>, done: seq<Template>, ts: seq<Template>)
    requires Tabulates(known, done) && DistinctIds(done)
    ensures AddAll(known, ts).Ok? <==> DistinctIds(done + ts)
    ensures AddAll(known, ts).Ok? ==> Tabulates(AddAll(known, ts).value, done + ts)
    decreases |ts|
  {
    if ts == [] {
      assert done + ts == done;
    } else {
      var t := ts[0];
      assert done + ts == (done + [t]) + ts[1..];
      if t.id in known {
        var i :| 0 <= i < |done| && done[i] == known[t.id];
        assert (done + ts)[i].id == (done + ts)[|done|].id;
      } else {
        SnocDistinct(known, done, t);
        AddAllMeans(known[t.id := t], done + [t], ts[1..]);
      }
    }
  }

  lemma SnocDistinct(known: map<nat, Template>, done: seq<Template>, t: Template)
    requires Tabulates(known, done) && DistinctIds(done) && t.id !in known
    ensures Tabulates(known[t.id := t], done + [t]) && DistinctIds(done + [t])
  {
    forall i | 0 <= i < |done| ensures done[i].id != t.id {
      assert done[i] in done;
    }
  }

  /** Parsing a document succeeds exactly when its template ids are distinct, and then rebuilds its forest. */
  lemma ParsesForest(ds: seq<Doc>)
    ensures var r := Run(START, DocsEvents(ds));
            && (r.Ok? <==> DistinctIds(AllTemplates(ds)))
            && (r.Ok? ==> Tabulates(r.value.templates, AllTemplates(ds)) && Outside(r.value))
  {
    hide Run;
    hide AddAll;
    DocsRun(START, ds);
    AddAllMeans(map[], [], AllTemplates(ds));
    assert [] + AllTemplates(ds) == AllTemplates(ds);
  }

  // ------------------------------------------------------------ writing templates back

  /** What the machine builds: a group's count field is the field itself without its group. */
  ghost predicate FormedField(f: FieldDef)
    decreases f
  {
    match f.group
    case None => true
    case Some(g) => g.countField == Plain(f.info) && forall k :: 0 <= k < |g.members| ==> FormedField(g.members[k])
  }

  ghost predicate FormedFields(fs: seq<FieldDef>) {
    forall k :: 0 <= k < |fs| ==> FormedField(fs[k])
  }

  ghost predicate FormedTemplate(t: Template) {
    FormedFields(t.fields)
  }

  ghost predicate FormedState(s: State) {
    && (forall k :: k in s.templates ==> s.templates[k].id == k && FormedTemplate(s.templates[k]))
    && (s.current.Some? ==> FormedTemplate(s.current.value))
    && (forall k :: 0 <= k < |s.groups| ==> s.groups[k].countField.group == None && FormedFields(s.groups[k].members))
  }

  lemma PushFormed(s: State, f: FieldDef)
    requires FormedState(s) && FormedField(f)
    ensures FormedState(PushField(s, f))
  {
  }

  lemma FinishFormed(s: State)
    requires FormedState(s)
    ensures FormedState(FinishGroup(s))
  {
    if s.groups != [] {
      var top := s.groups[|s.groups| - 1];
      assert FormedField(Grouped(top));
      PushFormed(s.(groups := s.groups[..|s.groups| - 1]), Grouped(top));
    }
  }

  lemma StepFormed(s: State, e: Event)
    requires FormedState(s) && Step(s, e).Ok?
    ensures FormedState(Step(s, e).value)
  {
    hide FinishGroup;
    hide PushField;
    match e
    case GroupStart(info, _) => FinishFormed(s.(groups := s.groups + [GroupFrame(Plain(info), [])]));
    case FieldStart(info) => PushFormed(s, Plain(info));
    case GroupEnd => FinishFormed(s);
    case _ =>
  }

  /** Kept by every stream of events, well nested or not. */
  lemma {:induction false} RunFormed(s: State, events: seq<Event>)
    requires FormedState(s) && Run(s, events).Ok?
    ensures FormedState(Run(s, events).value)
    decreases |events|
  {
    hide FormedState;
    hide Step;
    if events != [] {
      StepFormed(s, events[0]);
      RunFormed(Step(s, events[0]).value, events[1..]);
    }
  }

  function NodeOf(f: FieldDef): Node
    decreases f, 0
  {
    match f.group
    case None => FieldNode(f.info, [])
    case Some(g) => GroupNode(f.info, NodesOf(g.members))
  }

  function NodesOf(fs: seq<FieldDef>): seq<Node>
    decreases fs, 1
  {
    if fs == [] then [] else [NodeOf(fs[0])] + NodesOf(fs[1..])
  }

  function DocsOf(ts: seq<Template>): seq<Doc> {
    if ts == [] then [] else [TemplateDoc(ts[0].id, ts[0].name, NodesOf(ts[0].fields))] + DocsOf(ts[1..])
  }

  lemma {:induction false} NodeOfMeans(f: FieldDef)
    requires FormedField(f)
    ensures Fields(NodeOf(f)) == [f]
    decreases f, 0
  {
    match f.group
    case None => assert AllFields([]) == [];
    case Some(g) => NodesOfMean(g.members);
  }

  lemma {:induction false} NodesOfMean(fs: seq<FieldDef>)
    requires FormedFields(fs)
    ensures AllFields(NodesOf(fs)) == fs
    decreases fs, 1
  {
    if fs != [] {
      NodeOfMeans(fs[0]);
      NodesOfMean(fs[1..]);
      assert NodesOf(fs)[1..] == NodesOf(fs[1..]);
    }
  }

  lemma {:induction false} DocsOfMean(ts: seq<Template>)
    requires forall k :: 0 <= k < |ts| ==> FormedTemplate(ts[k])
    ensures AllTemplates(DocsOf(ts)) == ts
  {
    if ts != [] {
      NodesOfMean(ts[0].fields);
      DocsOfMean(ts[1..]);
      assert DocsOf(ts)[1..] == DocsOf(ts[1..]);
    }
  }

  lemma TabulatesUnique(m: map<nat, Template>, n: map<nat, Template>, ts: seq<Template>)
    requires Tabulates(m, ts) && Tabulates(n, ts)
    ensures m == n
  {
    forall k | k in m ensures k in n && n[k] == m[k] {
      assert m[k] in ts;
    }
    forall k | k in n ensures k in m {
      assert n[k] in ts;
    }
    assert m.Keys == n.Keys;
  }

  /** Whatever stream was accepted, its templates written out in any order parse back to themselves. */
  lemma ParsedTemplatesRoundTrip(events: seq<Event>, order: seq<Template>)
    requires Run(START, events).Ok?
    requires Tabulates(Run(START, events).value.templates, order) && DistinctIds(order)
    ensures Run(START, DocsEvents(DocsOf(order))) == Ok(State(Run(START, events).value.templates, None, []))
  {
    hide Run;
    var m := Run(START, events).value.templates;
    RunFormed(START, events);
    forall k | 0 <= k < |order| ensures FormedTemplate(order[k]) {
      assert order[k] in order;
    }
    DocsOfMean(order);
    ParsesForest(DocsOf(order));
    var r := Run(START, DocsEvents(DocsOf(order)));
    TabulatesUnique(m, r.value.templates, order);
  }

  // ------------------------------------------------------------ the id a late duplicate reports

  /** A template inside another of the same id is noticed only when the outer one ends, and the error then names
      the greatest id so far, which need not be the repeated one. */
  lemma LateDuplicateNamesAnotherId()
    ensures Run(START, [TemplateStart(1, "", false), TemplateStart(1, "", true), TemplateStart(2, "", true), TemplateEnd])
         == Err(DuplicateTemplateId(2))
  {
    var outer, inner, other := TemplateStart(1, "", false), TemplateStart(1, "", true), TemplateStart(2, "", true);
    var one, two := Template(1, "", []), Template(2, "", []);
    var s1 := State(map[], Some(one), []);
    var s2 := State(map[1 := one], Some(one), []);
    var s3 := State(map[1 := one, 2 := two], Some(one), []);
    assert Step(START, outer) == Ok(s1) && Step(s1, inner) == Ok(s2) && Step(s2, other) == Ok(s3);
    assert s3.templates.Keys == {1, 2};
    GreatestIsOne(2, s3.templates.Keys);
    var es := [outer, inner, other, TemplateEnd];
    RunOne(s3, TemplateEnd);
    assert es[1..] == [inner, other, TemplateEnd];
    assert es[1..][1..] == [other, TemplateEnd];
    assert es[1..][1..][1..] == [TemplateEnd];
  }

  /** The event that repeats an id: a start of a template already stored, or the end of a template whose id was
      stored while it was open. */
  ghost predicate Repeats(t: State, e: Event, id: nat) {
    || (e.TemplateStart? && id == e.id && id in t.templates)
    || (e.TemplateEnd? && t.current.Some? && id == t.current.value.id && id in t.templates)
  }

  /** Over every stream: a duplicate is reported only where an id is repeated, and the id named is that one at a
      start and the greatest stored one at an end; so it is the repeated one exactly at a start, or where the
      repeated one is the greatest. */
  lemma {:induction false} DuplicateReported(s: State, events: seq<Event>, named: nat) returns (i: nat, t: State, id: nat)
    requires Run(s, events) == Err(DuplicateTemplateId(named))
    ensures i < |events| && Run(s, events[..i]) == Ok(t) && Repeats(t, events[i], id)
    ensures named == if events[i].TemplateStart? then id else Greatest(t.templates.Keys)
    ensures named == id <==> events[i].TemplateStart? || IsGreatest(id, t.templates.Keys)
    decreases |events|
  {
    hide PushField;
    hide FinishGroup;
    match Step(s, events[0])
    case Ok(next) =>
      i, t, id := DuplicateReported(next, events[1..], named);
      i := i + 1;
      assert events[..i][0] == events[0] && events[..i][1..] == events[1..][..i - 1];
    case Err(_) =>
      assert events[..0] == [];
      i, t := 0, s;
      id := if events[0].TemplateStart? then events[0].id else s.current.value.id;
      if !events[0].TemplateStart? && IsGreatest(id, s.templates.Keys) {
        GreatestIsOne(id, s.templates.Keys);
      }
  }

  /** No template starts inside another; `open` says whether one is open at the start. */
  predicate Unnested(events: seq<Event>, open: bool) {
    if events == [] then true
    else match events[0]
      case TemplateStart(_, _, empty) => !open && Unnested(events[1..], !empty)
      case TemplateEnd => Unnested(events[1..], false)
      case _ => Unnested(events[1..], open)
  }

  /** The id of the open template is not yet stored. */
  ghost predicate OpenIsNew(s: State) {
    s.current.Some? ==> s.current.value.id !in s.templates
  }

  lemma StepUnnested(s: State, e: Event)
    requires OpenIsNew(s) && (e.TemplateStart? ==> s.current.None?) && Step(s, e).Ok?
    ensures OpenIsNew(Step(s, e).value)
    ensures Step(s, e).value.current.Some? <==>
            if e.TemplateStart? then !e.empty else s.current.Some? && !e.TemplateEnd?
  {
  }

  /** Where no template starts inside another, the id named is always the repeated one. */
  lemma {:induction false} UnnestedNamesRepeated(s: State, events: seq<Event>, named: nat) returns (i: nat, t: State)
    requires Run(s, events) == Err(DuplicateTemplateId(named)) && OpenIsNew(s) && Unnested(events, s.current.Some?)
    ensures i < |events| && Run(s, events[..i]) == Ok(t) && events[i].TemplateStart?
    ensures events[i].id == named && named in t.templates
    decreases |events|
  {
    match Step(s, events[0])
    case Ok(next) =>
      StepUnnested(s, events[0]);
      i, t := UnnestedNamesRepeated(next, events[1..], named);
      i := i + 1;
      assert events[..i][0] == events[0] && events[..i][1..] == events[1..][..i - 1];
    case Err(_) =>
      assert events[..0] == [];
      i, t := 0, s;
  }

  // ----- what each event leaves alone

  /** On every stream, when an event is refused. */
  lemma StepFails(s: State, e: Event)
    ensures Step(s, e).Err? <==>
            || e.Malformed?
            || (e.TemplateStart? && e.id in s.templates)
            || (e.TemplateEnd? && s.current.Some? && s.current.value.id in s.templates)
    ensures e.Malformed? ==> Step(s, e) == Err(BadElement)
  {
    hide PushField;
    hide FinishGroup;
  }

  /** On every stream, what the template elements do: they touch no group, and a template is recorded when it ends. */
  lemma TemplateStepTouches(s: State, e: Event)
    requires Step(s, e).Ok? && (e.TemplateStart? || e.TemplateEnd?)
    ensures var t := Step(s, e).value;
            && t.groups == s.groups
            && (forall id :: id in s.templates ==> id in t.templates && t.templates[id] == s.templates[id])
            && (e.TemplateEnd? ==> t.current.None?)
            && (e.TemplateEnd? && s.current.Some? ==> t.templates == s.templates[s.current.value.id := s.current.value])
            && (e.TemplateEnd? && s.current.None? ==> t == s)
            && (e.TemplateStart? && !e.empty ==> t.templates == s.templates && t.current == Some(Template(e.id, e.name, [])))
            && (e.TemplateStart? && e.empty ==> t.current == s.current && t.templates == s.templates[e.id := Template(e.id, e.name, [])])
  {
  }

  /** And the others: fields and groups are built up in the innermost open group, or else in the open template, and
      nothing else changes. */
  lemma OtherStepTouches(s: State, e: Event)
    requires !e.TemplateStart? && !e.TemplateEnd? && !e.Malformed?
    ensures Step(s, e).Ok?
    ensures var t := Step(s, e).value;
            && t.templates == s.templates
            && (e.Ignored? ==> t == s)
            && (e.GroupStart? && !e.empty ==> t.current == s.current && |t.groups| == |s.groups| + 1 && t.groups[..|s.groups|] == s.groups)
            && (e.FieldStart? && s.groups != [] ==> t.current == s.current && |t.groups| == |s.groups|)
            && (e.FieldStart? && s.groups == [] && s.current.None? ==> t == s)
            && (e.GroupEnd? && s.groups == [] ==> t == s)
            && (e.GroupEnd? && s.groups != [] ==> |t.groups| == |s.groups| - 1)
  {
    hide PushField;
    hide FinishGroup;
    match e
    case FieldStart(info) => PushTouches(s, FieldDef(info, None));
    case GroupEnd => FinishTouches(s);
    case GroupStart(info, _) => FinishTouches(s.(groups := s.groups + [GroupFrame(FieldDef(info, None), [])]));
    case Ignored =>
  }

  lemma PushTouches(s: State, f: FieldDef)
    ensures var t := PushField(s, f);
            && t.templates == s.templates && |t.groups| == |s.groups|
            && (s.groups != [] ==> t.current == s.current)
            && (s.groups == [] && s.current.None? ==> t == s)
  {
  }

  lemma FinishTouches(s: State)
    ensures var t := FinishGroup(s);
            && t.templates == s.templates
            && (s.groups == [] ==> t == s)
            && (s.groups != [] ==> |t.groups| == |s.groups| - 1)
  {
    if s.groups != [] {
      PushTouches(s.(groups := s.groups[..|s.groups| - 1]), Grouped(s.groups[|s.groups| - 1]));
    }
  }
}
