/** FAST template documents: the stack machine that rebuilds templates from XML events
    (`truefix-dict/src/fast_template.rs`). Tokenising and attribute reading are outside: an event carries the
    attributes already read, and an element whose attributes do not read is `Malformed`. */
module FastTemplates {
  import opened Decimal

  datatype DataType = UInt32 | Int32 | UInt64 | Int64 | AsciiString | UnicodeString | DecimalNumber

  datatype Operator = Copy | Increment | Delta | Default(value: Option<string>) | NoOperator

  datatype FieldInfo = FieldInfo(tag: nat, name: string, dataType: DataType, operator: Operator, nullable: bool)

  datatype FieldDef = FieldDef(info: FieldInfo, group: Option<GroupDef>)

  datatype GroupDef = GroupDef(countField: FieldDef, members: seq<FieldDef>)

  datatype Template = Template(id: nat, name: string, fields: seq<FieldDef>)

  datatype GroupFrame = GroupFrame(countField: FieldDef, members: seq<FieldDef>)

  datatype Event =
    | TemplateStart(id: nat, name: string, empty: bool)
    | GroupStart(info: FieldInfo, empty: bool)
    | FieldStart(info: FieldInfo)
    | Malformed
    | GroupEnd
    | TemplateEnd
    | Ignored

  datatype Error = DuplicateTemplateId(id: nat) | BadElement

  datatype Result<T> = Ok(value: T) | Err(error: Error)

  datatype State = State(templates: map<nat, Template>, current: Option<Template>, groups: seq<GroupFrame>)

  const START := State(map[], None, [])

  // ------------------------------------------------------------ one step

  function PushField(s: State, field: FieldDef): State {
    if s.groups != [] then
      var top := s.groups[|s.groups| - 1];
      s.(groups := s.groups[..|s.groups| - 1] + [top.(members := top.members + [field])])
    else if s.current.Some? then
      s.(current := Some(s.current.value.(fields := s.current.value.fields + [field])))
    else s
  }

  function Grouped(frame: GroupFrame): FieldDef {
    frame.countField.(group := Some(GroupDef(frame.countField, frame.members)))
  }

  function FinishGroup(s: State): State {
    if s.groups == [] then s else
    PushField(s.(groups := s.groups[..|s.groups| - 1]), Grouped(s.groups[|s.groups| - 1]))
  }

  ghost predicate IsGreatest(m: nat, keys: set<nat>) {
    m in keys && forall k :: k in keys ==> k <= m
  }

  lemma {:induction false} GreatestExists(keys: set<nat>)
    requires keys != {}
    ensures exists m :: IsGreatest(m, keys)
    decreases |keys|
  {
    var k :| k in keys;
    if keys == {k} {
      assert IsGreatest(k, keys);
    } else {
      var rest := keys - {k};
      assert rest != {};
      GreatestExists(rest);
      var m :| IsGreatest(m, rest);
      var top := if k < m then m else k;
      forall j | j in keys ensures j <= top {
        assert j == k || j in rest;
      }
      assert IsGreatest(top, keys);
    }
  }

  ghost function Greatest(keys: set<nat>): (m: nat)
    requires keys != {}
    ensures IsGreatest(m, keys)
  {
    GreatestExists(keys);
    var m :| IsGreatest(m, keys);
    m
  }

  ghost function InsertTemplate(s: State, t: Template): Result<State> {
    if t.id in s.templates then Err(DuplicateTemplateId(Greatest(s.templates.Keys)))
    else Ok(s.(templates := s.templates[t.id := t]))
  }

  ghost function Step(s: State, e: Event): Result<State> {
    match e
    case TemplateStart(id, name, empty) =>
      if id in s.templates then Err(DuplicateTemplateId(id))
      else if empty then InsertTemplate(s, Template(id, name, []))
      else Ok(s.(current := Some(Template(id, name, []))))
    case GroupStart(info, empty) =>
      var pushed := s.(groups := s.groups + [GroupFrame(FieldDef(info, None), [])]);
      Ok(if empty then FinishGroup(pushed) else pushed)
    case FieldStart(info) => Ok(PushField(s, FieldDef(info, None)))
    case Malformed => Err(BadElement)
    case GroupEnd => Ok(FinishGroup(s))
    case TemplateEnd => if s.current.None? then Ok(s) else InsertTemplate(s.(current := None), s.current.value)
    case Ignored => Ok(s)
  }

  ghost function Run(s: State, events: seq<Event>): Result<State>
    decreases |events|
  {
    if events == [] then Ok(s) else
    match Step(s, events[0])
    case Err(e) => Err(e)
    case Ok(t) => Run(t, events[1..])
  }

  class Parser {
    var templates: map<nat, Template>
    var current: Option<Template>
    var groups: seq<GroupFrame>

    constructor ()
      ensures View() == START
    {
      templates, current, groups := map[], None, [];
    }

    function View(): State
      reads this
    {
      State(templates, current, groups)
    }

    method Push(field: FieldDef)
      modifies this`groups, this`current
      ensures View() == PushField(old(View()), field)
    {
      if groups != [] {
        var top := groups[|groups| - 1];
        groups := groups[..|groups| - 1] + [top.(members := top.members + [field])];
      } else if current.Some? {
        current := Some(current.value.(fields := current.value.fields + [field]));
      }
    }

    method CloseGroup()
      modifies this`groups, this`current
      ensures View() == FinishGroup(old(View()))
    {
      if groups == [] {
        return;
      }
      var frame := groups[|groups| - 1];
      groups := groups[..|groups| - 1];
      Push(frame.countField.(group := Some(GroupDef(frame.countField, frame.members))));
    }

    /** A repeated id is still written before it is reported, and the id reported is the last in the map. */
    method Insert(t: Template) returns (r: Result<()>)
      modifies this`templates
      ensures templates == old(templates)[t.id := t]
      ensures InsertTemplate(old(View()), t) == if r.Ok? then Ok(View()) else Err(r.error)
    {
      var repeated := t.id in templates;
      templates := templates[t.id := t];
      if repeated {
        assert templates.Keys == old(templates).Keys;
        var last := LastKey(templates.Keys);
        GreatestIsOne(last, templates.Keys);
        return Err(DuplicateTemplateId(last));
      }
      r := Ok(());
    }

    method HandleStart(e: Event) returns (r: Result<()>)
      requires e.TemplateStart? || e.GroupStart? || e.FieldStart? || e.Malformed? || e.Ignored?
      modifies this
      ensures Step(old(View()), e) == if r.Ok? then Ok(View()) else Err(r.error)
    {
      r := Ok(());
      match e {
        case TemplateStart(id, name, empty) =>
          if id in templates {
            return Err(DuplicateTemplateId(id));
          }
          if empty {
            r := Insert(Template(id, name, []));
          } else {
            current := Some(Template(id, name, []));
          }
        case GroupStart(info, empty) =>
          groups := groups + [GroupFrame(FieldDef(info, None), [])];
          if empty {
            CloseGroup();
          }
        case FieldStart(info) => Push(FieldDef(info, None));
        case Malformed => r := Err(BadElement);
        case Ignored =>
      }
    }

    method HandleEnd(e: Event) returns (r: Result<()>)
      requires e.GroupEnd? || e.TemplateEnd? || e.Ignored?
      modifies this
      ensures Step(old(View()), e) == if r.Ok? then Ok(View()) else Err(r.error)
    {
      r := Ok(());
      match e {
        case GroupEnd => CloseGroup();
        case TemplateEnd =>
          if current.Some? {
            var t := current.value;
            current := None;
            r := Insert(t);
          }
        case Ignored =>
      }
    }
  }

  lemma GreatestIsOne(m: nat, keys: set<nat>)
    requires IsGreatest(m, keys)
    ensures m == Greatest(keys)
  {
  }

  /** The last key of an ordered map. */
  method LastKey(keys: set<nat>) returns (last: nat)
    requires keys != {}
    ensures IsGreatest(last, keys)
  {
    last :| last in keys;
    var todo := keys - {last};
    while todo != {}
      invariant todo <= keys && last in keys
      invariant forall k :: k in keys && k !in todo ==> k <= last
      decreases |todo|
    {
      var k :| k in todo;
      if k > last {
        last := k;
      }
      todo := todo - {k};
    }
  }

  method ParseTemplates(events: seq<Event>) returns (r: Result<map<nat, Template>>)
    ensures match Run(START, events)
            case Ok(s) => r == Ok(s.templates)
            case Err(e) => r == Err(e)
  {
    var p := new Parser();
    for i := 0 to |events|
      invariant fresh(p) && Run(START, events) == Run(p.View(), events[i..])
    {
      assert events[i..][0] == events[i] && events[i..][1..] == events[i + 1..];
      var e := events[i];
      var outcome;
      if e.GroupEnd? || e.TemplateEnd? {
        outcome := p.HandleEnd(e);
      } else {
        outcome := p.HandleStart(e);
      }
      if outcome.Err? {
        return Err(outcome.error);
      }
    }
    r := Ok(p.templates);
  }

  lemma {:induction false} RunAppend(s: State, a: seq<Event>, b: seq<Event>)
    ensures Run(s, a + b) == if Run(s, a).Ok? then Run(Run(s, a).value, b) else Run(s, a)
    decreases |a|
  {
    hide Step;
    if a == [] {
      assert a + b == b;
    } else {
      assert (a + b)[0] == a[0] && (a + b)[1..] == a[1..] + b;
      match Step(s, a[0])
      case Ok(t) => RunAppend(t, a[1..], b);
      case Err(_) =>
    }
  }

  lemma RunOne(s: State, e: Event)
    ensures Run(s, [e]) == Step(s, e)
  {
    assert [e][1..] == [];
  }
}
