/** The build-time reader of the same dictionaries, which feeds the code generator (`parse_dict` in
    `truefix-dict/src/codegen.rs`). It keeps its own tables and its own checks. */
module CodegenTrack {
  import opened Decimal
  import opened FieldMaps
  import opened Graphs
  import opened Components
  import opened DictionaryLines

  datatype CodegenError = Malformed(line: nat) | BadToken(word: string) | Unresolved(cause: ResolveError)

  datatype GenField = GenField(name: string, typeWord: string, values: seq<(string, Option<string>)>)

  datatype RawGenGroup = RawGenGroup(name: string, delimiter: Tag, members: seq<RawMember>)

  datatype RawGenMessage = RawGenMessage(
    msgType: string, name: string, required: seq<RawMember>, optional: seq<RawMember>, ordered: bool)

  datatype GenGroup = GenGroup(name: string, delimiter: Tag, members: seq<Tag>)

  datatype GenMessage = GenMessage(
    msgType: string, name: string, required: seq<Tag>, optional: seq<Tag>, fieldOrder: Option<seq<Tag>>)

  datatype GenDict = GenDict(fields: map<Tag, GenField>, groups: map<Tag, GenGroup>, messages: seq<GenMessage>)

  datatype RawGen = RawGen(
    fields: map<Tag, GenField>,
    groups: map<Tag, RawGenGroup>,
    messages: seq<RawGenMessage>,
    components: RawComponents)

  const NOTHING := RawGen(map[], map[], [], map[])

  type GenStep = Parsed<RawGen, CodegenError>

  // ------------------------------------------------------------ one line

  function GenValue(word: string): (string, Option<string>) {
    match SplitOnce(word, '=')
    case Some(p) => (p.0, Some(p.1))
    case None => (word, None)
  }

  function GenValues(words: seq<string>): seq<(string, Option<string>)> {
    seq(|words|, i requires 0 <= i < |words| => GenValue(words[i]))
  }

  function WithoutOpen(rest: seq<string>): seq<string> {
    if |rest| > 0 && rest[0] == "open" then rest[1..] else rest
  }

  function GenFieldLine(s: RawGen, args: seq<string>, line: nat): GenStep {
    if |args| == 0 || ParseTag(args[0]).None? || |args| < 3 then Bad(Malformed(line))
    else
      var def := GenField(args[1], args[2], GenValues(WithoutOpen(args[3..])));
      Good(s.(fields := s.fields[ParseTag(args[0]).value := def]))
  }

  function GenGroupLine(s: RawGen, args: seq<string>, line: nat): GenStep {
    if |args| == 0 || ParseTag(args[0]).None? || |args| < 3 || ParseTag(args[2]).None? || |args| == 3 then Bad(Malformed(line))
    else match MemberList(args[3])
      case Bad(word) => Bad(BadToken(word))
      case Good(members) =>
        Good(s.(groups := s.groups[ParseTag(args[0]).value := RawGenGroup(args[1], ParseTag(args[2]).value, members)]))
  }

  function GenComponentLine(s: RawGen, args: seq<string>, line: nat): GenStep {
    if |args| < 2 then Bad(Malformed(line))
    else match MemberList(args[1])
      case Bad(word) => Bad(BadToken(word))
      case Good(members) => Good(s.(components := s.components[args[0] := members]))
  }

  function GenMessageLine(s: RawGen, args: seq<string>, line: nat): GenStep {
    if |args| < 2 then Bad(Malformed(line))
    else match ReadModifiers(args[2..])
      case Bad(word) => Bad(BadToken(word))
      case Good(m) =>
        Good(s.(messages := s.messages + [RawGenMessage(args[0], args[1], m.required, m.optional, m.ordered)]))
  }

  predicate AllNumeric(words: seq<string>) {
    forall w :: w in words ==> ParseTag(w).Some?
  }

  function GenLine(s: RawGen, words: Line, line: nat): GenStep {
    if words == [] then Good(s) else
    var args := words[1..];
    match DirectiveOf(words[0])
    case FieldLine => GenFieldLine(s, args, line)
    case GroupLine => GenGroupLine(s, args, line)
    case ComponentLine => GenComponentLine(s, args, line)
    case MessageLine => GenMessageLine(s, args, line)
    case VersionLine => if args == [] then Bad(Malformed(line)) else Good(s)
    case MetaLine => Good(s)
    case HeaderLine => if AllNumeric(args) then Good(s) else Bad(Malformed(line))
    case TrailerLine => if AllNumeric(args) then Good(s) else Bad(Malformed(line))
    case UnknownLine => Bad(Malformed(line))
  }

  function GenLines(doc: seq<Line>): GenStep {
    if doc == [] then Good(NOTHING)
    else match GenLines(doc[..|doc| - 1])
      case Bad(e) => Bad(e)
      case Good(s) => GenLine(s, doc[|doc| - 1], |doc|)
  }

  lemma {:induction false} GenLinesStop(doc: seq<Line>, i: nat)
    requires i <= |doc| && GenLines(doc[..i]).Bad?
    ensures GenLines(doc) == GenLines(doc[..i])
    decreases |doc|
  {
    hide GenLine;
    if i == |doc| {
      assert doc[..i] == doc;
    } else {
      assert doc[..|doc| - 1][..i] == doc[..i];
      GenLinesStop(doc[..|doc| - 1], i);
    }
  }

  method ScanGenValues(words: seq<string>) returns (values: seq<(string, Option<string>)>)
    ensures values == GenValues(words)
  {
    values := [];
    for i := 0 to |words|
      invariant values == GenValues(words[..i])
    {
      assert words[..i + 1][..i] == words[..i];
      match SplitOnce(words[i], '=') {
        case Some(p) => values := values + [(p.0, Some(p.1))];
        case None => values := values + [(words[i], None)];
      }
    }
    assert words[..|words|] == words;
  }

  method ReadGenField(s: RawGen, args: seq<string>, line: nat) returns (r: GenStep)
    ensures r == GenFieldLine(s, args, line)
  {
    if |args| == 0 || ParseTag(args[0]).None? || |args| < 3 {
      return Bad(Malformed(line));
    }
    var remaining := args[3..];
    if |remaining| > 0 && remaining[0] == "open" {
      remaining := remaining[1..];
    }
    var values := ScanGenValues(remaining);
    r := Good(s.(fields := s.fields[ParseTag(args[0]).value := GenField(args[1], args[2], values)]));
  }

  method ReadGenLine(s: RawGen, words: Line, line: nat) returns (r: GenStep)
    ensures r == GenLine(s, words, line)
  {
    if words == [] {
      return Good(s);
    }
    var args := words[1..];
    match DirectiveOf(words[0]) {
      case FieldLine => r := ReadGenField(s, args, line);
      case GroupLine => r := GenGroupLine(s, args, line);
      case ComponentLine => r := GenComponentLine(s, args, line);
      case MessageLine =>
        if |args| < 2 {
          return Bad(Malformed(line));
        }
        var m := ScanModifiers(args[2..]);
        if m.Bad? {
          return Bad(BadToken(m.error));
        }
        var message := RawGenMessage(args[0], args[1], m.value.required, m.value.optional, m.value.ordered);
        r := Good(s.(messages := s.messages + [message]));
      case VersionLine => r := if args == [] then Bad(Malformed(line)) else Good(s);
      case MetaLine => r := Good(s);
      case HeaderLine => r := if AllNumeric(args) then Good(s) else Bad(Malformed(line));
      case TrailerLine => r := if AllNumeric(args) then Good(s) else Bad(Malformed(line));
      case UnknownLine => r := Bad(Malformed(line));
    }
  }

  // ------------------------------------------------------------ what the reader should produce

  ghost predicate GenCompiles(s: RawGen) {
    && Closed(s.components) && Acyclic(RefGraph(s.components))
    && (forall c :: c in s.groups ==> Refers(s.components, s.groups[c].members))
    && (forall i :: 0 <= i < |s.messages| ==>
          Refers(s.components, s.messages[i].required) && Refers(s.components, s.messages[i].optional))
  }

  ghost predicate GenMessageCompiled(raw: RawComponents, from: RawGenMessage, m: GenMessage) {
    && m.msgType == from.msgType && m.name == from.name
    && ExpandsMembers(raw, from.required, m.required) && ExpandsMembers(raw, from.optional, m.optional)
    && m.fieldOrder == (if from.ordered then Some(m.required + m.optional) else None)
  }

  ghost predicate GenGroupCompiled(raw: RawComponents, from: RawGenGroup, g: GenGroup) {
    g.name == from.name && g.delimiter == from.delimiter && ExpandsMembers(raw, from.members, g.members)
  }

  ghost predicate IsGenCompiled(s: RawGen, d: GenDict) {
    && d.fields == s.fields
    && d.groups.Keys == s.groups.Keys
    && (forall c :: c in s.groups ==> GenGroupCompiled(s.components, s.groups[c], d.groups[c]))
    && |d.messages| == |s.messages|
    && (forall i :: 0 <= i < |s.messages| ==> GenMessageCompiled(s.components, s.messages[i], d.messages[i]))
  }

  ghost predicate GenAccepts(doc: seq<Line>) {
    GenLines(doc).Good? && GenCompiles(GenLines(doc).value)
  }

  method GenGroups(raw: RawComponents, groups: map<Tag, RawGenGroup>, table: map<string, seq<Tag>>)
    returns (r: Outcome<map<Tag, GenGroup>>)
    requires IsResolution(raw, table)
    ensures r.Success? <==> forall c :: c in groups ==> Refers(raw, groups[c].members)
    ensures r.Success? ==> r.value.Keys == groups.Keys
    ensures r.Success? ==> forall c :: c in groups ==> GenGroupCompiled(raw, groups[c], r.value[c])
    ensures r.Failure? ==> r.error.UnknownComponent? && r.error.name !in raw
  {
    hide Refers;
    hide IsResolution;
    hide ExpandsMembers;
    var out: map<Tag, GenGroup> := map[];
    var todo := groups.Keys;
    while todo != {}
      invariant todo <= groups.Keys && out.Keys == groups.Keys - todo
      invariant forall c :: c in out ==> Refers(raw, groups[c].members) && GenGroupCompiled(raw, groups[c], out[c])
      decreases todo
    {
      var c :| c in todo;
      ExpandedList(raw, table, groups[c].members);
      var members := Expand(groups[c].members, table);
      if members.Failure? {
        return Failure(members.error);
      }
      out := out[c := GenGroup(groups[c].name, groups[c].delimiter, members.value)];
      todo := todo - {c};
    }
    r := Success(out);
  }

  method GenMessages(raw: RawComponents, messages: seq<RawGenMessage>, table: map<string, seq<Tag>>)
    returns (r: Outcome<seq<GenMessage>>)
    requires IsResolution(raw, table)
    ensures r.Success? <==> forall i :: 0 <= i < |messages| ==> Refers(raw, messages[i].required) && Refers(raw, messages[i].optional)
    ensures r.Success? ==> |r.value| == |messages|
    ensures r.Success? ==> forall i :: 0 <= i < |messages| ==> GenMessageCompiled(raw, messages[i], r.value[i])
    ensures r.Failure? ==> r.error.UnknownComponent? && r.error.name !in raw
  {
    hide Refers;
    hide IsResolution;
    hide ExpandsMembers;
    var out: seq<GenMessage> := [];
    for i := 0 to |messages|
      invariant |out| == i
      invariant forall j :: 0 <= j < i ==> Refers(raw, messages[j].required) && Refers(raw, messages[j].optional)
      invariant forall j :: 0 <= j < i ==> GenMessageCompiled(raw, messages[j], out[j])
    {
      var m := messages[i];
      ExpandedList(raw, table, m.required);
      ExpandedList(raw, table, m.optional);
      var required := Expand(m.required, table);
      if required.Failure? {
        return Failure(required.error);
      }
      var optional := Expand(m.optional, table);
      if optional.Failure? {
        return Failure(optional.error);
      }
      var order := if m.ordered then Some(required.value + optional.value) else None;
      out := out + [GenMessage(m.msgType, m.name, required.value, optional.value, order)];
    }
    r := Success(out);
  }

  /** A failure is a circular component or a reference to a component defined nowhere. */
  ghost predicate GenBlames(s: RawGen, e: CodegenError) {
    match e
    case Unresolved(ComponentCycle(n)) => Reaches(RefGraph(s.components), n, n)
    case Unresolved(UnknownComponent(n)) => n !in s.components
    case _ => false
  }

  method GenCompile(s: RawGen) returns (r: Parsed<GenDict, CodegenError>)
    ensures r.Good? <==> GenCompiles(s)
    ensures r.Good? ==> IsGenCompiled(s, r.value)
    ensures r.Bad? ==> GenBlames(s, r.error)
  {
    hide Refers;
    hide Closed;
    hide Acyclic;
    hide GenGroupCompiled;
    hide GenMessageCompiled;
    var order := ListNames(s.components);
    var resolved := ResolveAll(s.components, order);
    if resolved.Failure? {
      return Bad(Unresolved(resolved.error));
    }
    var groups := GenGroups(s.components, s.groups, resolved.value);
    if groups.Failure? {
      return Bad(Unresolved(groups.error));
    }
    var messages := GenMessages(s.components, s.messages, resolved.value);
    if messages.Failure? {
      return Bad(Unresolved(messages.error));
    }
    r := Good(GenDict(s.fields, groups.value, messages.value));
  }

  /** The build-time reader, whole. */
  method ParseForCodegen(doc: seq<Line>) returns (r: Parsed<GenDict, CodegenError>)
    ensures r.Good? <==> GenAccepts(doc)
    ensures r.Good? ==> IsGenCompiled(GenLines(doc).value, r.value)
    ensures r.Bad? ==> match GenLines(doc) case Bad(e) => r.error == e case Good(s) => GenBlames(s, r.error)
  {
    hide GenLine;
    hide GenCompiles;
    hide IsGenCompiled;
    var s := NOTHING;
    for i := 0 to |doc|
      invariant GenLines(doc[..i]) == Good(s)
    {
      assert doc[..i + 1][..i] == doc[..i];
      var next := ReadGenLine(s, doc[i], i + 1);
      if next.Bad? {
        GenLinesStop(doc, i + 1);
        return Bad(next.error);
      }
      s := next.value;
    }
    assert doc[..|doc|] == doc;
    r := GenCompile(s);
  }
}
