/** The runtime reader of normalized dictionaries (`parse` and `build_child` in `truefix-dict/src/parser.rs`). */
module RuntimeTrack {
  import opened Decimal
  import opened FieldMaps
  import opened Dictionary
  import opened Graphs
  import opened GroupClosure
  import opened Components
  import opened Merging
  import opened DictionaryLines

  datatype RuntimeError =
    | MissingVersion
    | Malformed(line: nat)
    | UnknownType(line: nat, word: string)
    | DuplicateTag(line: nat, tag: Tag)
    | DuplicateName(line: nat, name: string)
    | DuplicateMessage(line: nat, msgType: string)
    | Unresolved(cause: ResolveError)

  datatype RawMessage = RawMessage(name: string, required: seq<RawMember>, optional: seq<RawMember>, ordered: bool)

  datatype RawGroup = RawGroup(delimiter: Tag, members: seq<RawMember>, required: seq<RawMember>)

  datatype Raw = Raw(
    version: Option<string>,
    meta: Option<Version>,
    fields: map<Tag, FieldDef>,
    fieldByName: map<string, Tag>,
    header: set<Tag>,
    trailer: set<Tag>,
    messages: map<string, RawMessage>,
    groups: map<Tag, RawGroup>,
    components: RawComponents)

  const EMPTY := Raw(None, None, map[], map[], {}, {}, map[], map[], map[])

  type Step = Parsed<Raw, RuntimeError>

  const FIELD_TYPES: set<string> :=
    {"INT", "LENGTH", "SEQNUM", "NUMINGROUP", "FLOAT", "PRICE", "QTY", "AMT", "PERCENTAGE", "CHAR", "BOOLEAN",
     "STRING", "DATA", "UTCTIMESTAMP", "UTCTIMEONLY", "UTCDATEONLY", "MONTHYEAR", "PRICEOFFSET", "LOCALMKTDATE",
     "DAYOFMONTH", "UTCDATE", "TIME", "CURRENCY", "EXCHANGE", "MULTIPLEVALUESTRING", "MULTIPLESTRINGVALUE",
     "MULTIPLECHARVALUE", "COUNTRY"}

  predicate KnownType(word: string) {
    word in FIELD_TYPES
  }

  // ------------------------------------------------------------ one line

  datatype Meta = Meta(major: Option<nat>, minor: Option<nat>, sp: Option<nat>, ep: Option<nat>)

  function AddMeta(m: Meta, word: string): Meta {
    match StripPrefix(word, "major=")
    case Some(v) => m.(major := ParseNumber(v, 255))
    case None => match StripPrefix(word, "minor=")
      case Some(v) => m.(minor := ParseNumber(v, 255))
      case None => match StripPrefix(word, "sp=")
        case Some(v) => m.(sp := ParseNumber(v, 255))
        case None => match StripPrefix(word, "ep=")
          case Some(v) => m.(ep := ParseNumber(v, 255))
          case None => m
  }

  function ReadMeta(words: seq<string>): Meta {
    if words == [] then Meta(None, None, None, None) else AddMeta(ReadMeta(words[..|words| - 1]), words[|words| - 1])
  }

  method ScanMeta(words: seq<string>) returns (m: Meta)
    ensures m == ReadMeta(words)
  {
    m := Meta(None, None, None, None);
    for i := 0 to |words|
      invariant m == ReadMeta(words[..i])
    {
      assert words[..i + 1][..i] == words[..i];
      m := AddMeta(m, words[i]);
    }
    assert words[..|words|] == words;
  }

  function StepMeta(s: Raw, args: seq<string>, line: nat): Step {
    var m := ReadMeta(args);
    if m.major.None? || m.minor.None? then Bad(Malformed(line))
    else Good(s.(meta := Some(Version.Version(m.major.value, m.minor.value, m.sp, m.ep))))
  }

  /** The enumeration words of a field line, without a leading `open`. */
  function EnumWords(rest: seq<string>): seq<string> {
    if rest != [] && rest[0] == "open" then rest[1..] else rest
  }

  predicate IsOpen(rest: seq<string>) {
    rest != [] && rest[0] == "open"
  }

  function ValueOf(word: string): string {
    match SplitOnce(word, '=') case Some(p) => p.0 case None => word
  }

  function ReadValues(words: seq<string>): seq<string> {
    seq(|words|, i requires 0 <= i < |words| => ValueOf(words[i]))
  }

  function ReadLabels(words: seq<string>): map<string, string> {
    if words == [] then map[] else
    var labels := ReadLabels(words[..|words| - 1]);
    match SplitOnce(words[|words| - 1], '=')
    case Some(p) => labels[p.0 := p.1]
    case None => labels
  }

  method ScanValues(words: seq<string>) returns (values: seq<string>, labels: map<string, string>)
    ensures values == ReadValues(words) && labels == ReadLabels(words)
  {
    values, labels := [], map[];
    for i := 0 to |words|
      invariant values == ReadValues(words[..i]) && labels == ReadLabels(words[..i])
    {
      assert words[..i + 1][..i] == words[..i];
      match SplitOnce(words[i], '=') {
        case Some(p) => values, labels := values + [p.0], labels[p.0 := p.1];
        case None => values := values + [words[i]];
      }
    }
    assert words[..|words|] == words;
  }

  function FieldOf(args: seq<string>, tag: Tag): FieldDef
    requires |args| >= 3
  {
    var words := EnumWords(args[3..]);
    FieldDef(tag, args[1], args[2], ReadValues(words), IsOpen(args[3..]), ReadLabels(words))
  }

  function StepField(s: Raw, args: seq<string>, line: nat): Step {
    if |args| < 3 || ParseTag(args[0]).None? then Bad(Malformed(line))
    else if !KnownType(args[2]) then Bad(UnknownType(line, args[2]))
    else
      var tag := ParseTag(args[0]).value;
      if tag in s.fields then Bad(DuplicateTag(line, tag))
      else if args[1] in s.fieldByName then Bad(DuplicateName(line, args[1]))
      else Good(s.(fields := s.fields[tag := FieldOf(args, tag)], fieldByName := s.fieldByName[args[1] := tag]))
  }

  function ReadTags(words: seq<string>): Option<set<Tag>> {
    if words == [] then Some({})
    else match ReadTags(words[..|words| - 1])
      case None => None
      case Some(ts) => match ParseTag(words[|words| - 1])
        case None => None
        case Some(t) => Some(ts + {t})
  }

  method ScanTags(words: seq<string>, known: set<Tag>) returns (r: Option<set<Tag>>)
    ensures r == match ReadTags(words) case None => None case Some(ts) => Some(known + ts)
  {
    var out := known;
    for i := 0 to |words|
      invariant ReadTags(words[..i]).Some? && out == known + ReadTags(words[..i]).value
    {
      assert words[..i + 1][..i] == words[..i];
      var tag := ParseTag(words[i]);
      if tag.None? {
        TagsStop(words, i + 1);
        return None;
      }
      out := out + {tag.value};
    }
    assert words[..|words|] == words;
    r := Some(out);
  }

  lemma {:induction false} TagsStop(words: seq<string>, i: nat)
    requires i <= |words| && ReadTags(words[..i]).None?
    ensures ReadTags(words).None?
    decreases |words|
  {
    if i == |words| {
      assert words[..i] == words;
    } else {
      assert words[..|words| - 1][..i] == words[..i];
      TagsStop(words[..|words| - 1], i);
    }
  }

  function StepMessage(s: Raw, args: seq<string>, line: nat): Step {
    if |args| < 2 then Bad(Malformed(line))
    else match ReadModifiers(args[2..])
      case Bad(_) => Bad(Malformed(line))
      case Good(m) =>
        if args[0] in s.messages then Bad(DuplicateMessage(line, args[0]))
        else Good(s.(messages := s.messages[args[0] := RawMessage(args[1], m.required, m.optional, m.ordered)]))
  }

  /** The last `req:` list of a group line. */
  function ReadRequired(words: seq<string>): Parsed<seq<RawMember>, string> {
    if words == [] then Good([])
    else match ReadRequired(words[..|words| - 1])
      case Bad(e) => Bad(e)
      case Good(ms) => match StripPrefix(words[|words| - 1], "req:")
        case Some(list) => MemberList(list)
        case None => Good(ms)
  }

  method ScanRequired(words: seq<string>) returns (r: Parsed<seq<RawMember>, string>)
    ensures r == ReadRequired(words)
  {
    var required := [];
    for i := 0 to |words|
      invariant ReadRequired(words[..i]) == Good(required)
    {
      assert words[..i + 1][..i] == words[..i];
      match StripPrefix(words[i], "req:") {
        case Some(list) =>
          var ms := MemberList(list);
          if ms.Bad? {
            RequiredStop(words, i + 1);
            return ms;
          }
          required := ms.value;
        case None =>
      }
    }
    assert words[..|words|] == words;
    r := Good(required);
  }

  lemma {:induction false} RequiredStop(words: seq<string>, i: nat)
    requires i <= |words| && ReadRequired(words[..i]).Bad?
    ensures ReadRequired(words) == ReadRequired(words[..i])
    decreases |words|
  {
    if i == |words| {
      assert words[..i] == words;
    } else {
      assert words[..|words| - 1][..i] == words[..i];
      RequiredStop(words[..|words| - 1], i);
    }
  }

  function StepGroup(s: Raw, args: seq<string>, line: nat): Step {
    if |args| < 4 || ParseTag(args[0]).None? || ParseTag(args[2]).None? then Bad(Malformed(line))
    else match MemberList(args[3])
      case Bad(_) => Bad(Malformed(line))
      case Good(members) => match ReadRequired(args[4..])
        case Bad(_) => Bad(Malformed(line))
        case Good(required) =>
          Good(s.(groups := s.groups[ParseTag(args[0]).value := RawGroup(ParseTag(args[2]).value, members, required)]))
  }

  function StepComponent(s: Raw, args: seq<string>, line: nat): Step {
    if |args| < 2 then Bad(Malformed(line))
    else match MemberList(args[1])
      case Bad(_) => Bad(Malformed(line))
      case Good(members) => Good(s.(components := s.components[args[0] := members]))
  }

  function StepTags(s: Raw, args: seq<string>, line: nat, header: bool): Step {
    match ReadTags(args)
    case None => Bad(Malformed(line))
    case Some(ts) => Good(if header then s.(header := s.header + ts) else s.(trailer := s.trailer + ts))
  }

  function StepVersion(s: Raw, args: seq<string>, line: nat): Step {
    if args == [] then Bad(Malformed(line)) else Good(s.(version := Some(args[0])))
  }

  function StepLine(s: Raw, words: Line, line: nat): Step {
    if words == [] then Good(s) else
    var args := words[1..];
    match DirectiveOf(words[0])
    case VersionLine => StepVersion(s, args, line)
    case MetaLine => StepMeta(s, args, line)
    case FieldLine => StepField(s, args, line)
    case HeaderLine => StepTags(s, args, line, true)
    case TrailerLine => StepTags(s, args, line, false)
    case MessageLine => StepMessage(s, args, line)
    case GroupLine => StepGroup(s, args, line)
    case ComponentLine => StepComponent(s, args, line)
    case UnknownLine => Bad(Malformed(line))
  }

  /** All lines, numbered from one. */
  function Lines(doc: seq<Line>): Step {
    if doc == [] then Good(EMPTY)
    else match Lines(doc[..|doc| - 1])
      case Bad(e) => Bad(e)
      case Good(s) => StepLine(s, doc[|doc| - 1], |doc|)
  }

  method ReadField(s: Raw, args: seq<string>, line: nat) returns (r: Step)
    ensures r == StepField(s, args, line)
  {
    if |args| < 3 || ParseTag(args[0]).None? {
      return Bad(Malformed(line));
    }
    if !KnownType(args[2]) {
      return Bad(UnknownType(line, args[2]));
    }
    var tag, remaining := ParseTag(args[0]).value, args[3..];
    var openEnum := remaining != [] && remaining[0] == "open";
    if openEnum {
      remaining := remaining[1..];
    }
    var values, labels := ScanValues(remaining);
    if tag in s.fields {
      return Bad(DuplicateTag(line, tag));
    }
    if args[1] in s.fieldByName {
      return Bad(DuplicateName(line, args[1]));
    }
    var def := FieldDef(tag, args[1], args[2], values, openEnum, labels);
    r := Good(s.(fields := s.fields[tag := def], fieldByName := s.fieldByName[args[1] := tag]));
  }

  method ReadMessage(s: Raw, args: seq<string>, line: nat) returns (r: Step)
    ensures r == StepMessage(s, args, line)
  {
    if |args| < 2 {
      return Bad(Malformed(line));
    }
    var m := ScanModifiers(args[2..]);
    if m.Bad? {
      return Bad(Malformed(line));
    }
    if args[0] in s.messages {
      return Bad(DuplicateMessage(line, args[0]));
    }
    var message := RawMessage(args[1], m.value.required, m.value.optional, m.value.ordered);
    r := Good(s.(messages := s.messages[args[0] := message]));
  }

  method ReadGroup(s: Raw, args: seq<string>, line: nat) returns (r: Step)
    ensures r == StepGroup(s, args, line)
  {
    if |args| < 4 || ParseTag(args[0]).None? || ParseTag(args[2]).None? {
      return Bad(Malformed(line));
    }
    var members := MemberList(args[3]);
    if members.Bad? {
      return Bad(Malformed(line));
    }
    var required := ScanRequired(args[4..]);
    if required.Bad? {
      return Bad(Malformed(line));
    }
    var group := RawGroup(ParseTag(args[2]).value, members.value, required.value);
    r := Good(s.(groups := s.groups[ParseTag(args[0]).value := group]));
  }

  method ReadLine(s: Raw, words: Line, line: nat) returns (r: Step)
    ensures r == StepLine(s, words, line)
  {
    if words == [] {
      return Good(s);
    }
    var args := words[1..];
    match DirectiveOf(words[0]) {
      case VersionLine => r := StepVersion(s, args, line);
      case MetaLine =>
        var m := ScanMeta(args);
        if m.major.None? || m.minor.None? {
          return Bad(Malformed(line));
        }
        r := Good(s.(meta := Some(Version.Version(m.major.value, m.minor.value, m.sp, m.ep))));
      case FieldLine => r := ReadField(s, args, line);
      case HeaderLine =>
        var tags := ScanTags(args, s.header);
        r := if tags.None? then Bad(Malformed(line)) else Good(s.(header := tags.value));
      case TrailerLine =>
        var tags := ScanTags(args, s.trailer);
        r := if tags.None? then Bad(Malformed(line)) else Good(s.(trailer := tags.value));
      case MessageLine => r := ReadMessage(s, args, line);
      case GroupLine => r := ReadGroup(s, args, line);
      case ComponentLine => r := StepComponent(s, args, line);
      case UnknownLine => r := Bad(Malformed(line));
    }
  }

  lemma {:induction false} LinesStop(doc: seq<Line>, i: nat)
    requires i <= |doc| && Lines(doc[..i]).Bad?
    ensures Lines(doc) == Lines(doc[..i])
    decreases |doc|
  {
    hide StepLine;
    if i == |doc| {
      assert doc[..i] == doc;
    } else {
      assert doc[..|doc| - 1][..i] == doc[..i];
      LinesStop(doc[..|doc| - 1], i);
    }
  }

  method ReadLines(doc: seq<Line>) returns (r: Step)
    ensures r == Lines(doc)
  {
    hide StepLine;
    var s := EMPTY;
    for i := 0 to |doc|
      invariant Lines(doc[..i]) == Good(s)
    {
      assert doc[..i + 1][..i] == doc[..i];
      var next := ReadLine(s, doc[i], i + 1);
      if next.Bad? {
        LinesStop(doc, i + 1);
        return next;
      }
      s := next.value;
    }
    assert doc[..|doc|] == doc;
    r := Good(s);
  }
}
