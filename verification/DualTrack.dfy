/** The runtime reader and the build-time reader of dictionaries agree: what the first accepts the second
    accepts, with the same content; and exactly what the first demands beyond the second. */
module DualTrack {
  import opened Decimal
  import opened FieldMaps
  import Dictionary
  import opened Graphs
  import opened Components
  import opened DictionaryLines
  import Runtime = RuntimeTrack
  import opened RuntimeDictionary
  import opened CodegenTrack

  // ------------------------------------------------------------ the same tables

  function LabelsOf(values: seq<(string, Option<string>)>): map<string, string> {
    if values == [] then map[] else
    var last := values[|values| - 1];
    var labels := LabelsOf(values[..|values| - 1]);
    if last.1.Some? then labels[last.0 := last.1.value] else labels
  }

  ghost predicate SameField(f: Dictionary.FieldDef, g: GenField) {
    && f.name == g.name && f.fieldType == g.typeWord
    && |f.values| == |g.values| && (forall i :: 0 <= i < |f.values| ==> f.values[i] == g.values[i].0)
    && f.labels == LabelsOf(g.values)
  }

  ghost predicate SameFields(fs: map<Tag, Dictionary.FieldDef>, gs: map<Tag, GenField>) {
    fs.Keys == gs.Keys && forall t :: t in fs ==> SameField(fs[t], gs[t])
  }

  ghost predicate SameRawGroups(gs: map<Tag, Runtime.RawGroup>, hs: map<Tag, RawGenGroup>) {
    gs.Keys == hs.Keys && forall c :: c in gs ==> gs[c].delimiter == hs[c].delimiter && gs[c].members == hs[c].members
  }

  ghost predicate SameRawMessage(m: Runtime.RawMessage, n: RawGenMessage) {
    m.name == n.name && m.required == n.required && m.optional == n.optional && m.ordered == n.ordered
  }

  /** The list names each message of the table once. */
  ghost predicate SameRawMessages(ms: map<string, Runtime.RawMessage>, ns: seq<RawGenMessage>) {
    && (forall i :: 0 <= i < |ns| ==> ns[i].msgType in ms && SameRawMessage(ms[ns[i].msgType], ns[i]))
    && (forall i, j :: 0 <= i < j < |ns| ==> ns[i].msgType != ns[j].msgType)
    && (forall k :: k in ms ==> exists i :: 0 <= i < |ns| && ns[i].msgType == k)
  }

  ghost predicate Matches(s: Runtime.Raw, g: RawGen) {
    && SameFields(s.fields, g.fields) && SameRawGroups(s.groups, g.groups)
    && SameRawMessages(s.messages, g.messages) && s.components == g.components
  }

  // ------------------------------------------------------------ what only the runtime reader demands of a line

  ghost predicate RuntimeLine(words: Line) {
    words != [] ==>
      match DirectiveOf(words[0])
      case MetaLine => var m := Runtime.ReadMeta(words[1..]); m.major.Some? && m.minor.Some?
      case FieldLine => |words| >= 4 ==> Runtime.KnownType(words[3])
      case GroupLine => |words| >= 5 ==> Runtime.ReadRequired(words[5..]).Good?
      case _ => true
  }

  /** The tag and name a field line defines, the type a message line defines, the count tag a group line
      defines and the name a component line defines. */
  function DefinesField(words: Line): Option<(Tag, string)> {
    if |words| >= 4 && DirectiveOf(words[0]).FieldLine? && ParseTag(words[1]).Some?
    then Some((ParseTag(words[1]).value, words[2])) else None
  }

  function DefinesMessage(words: Line): Option<string> {
    if |words| >= 3 && DirectiveOf(words[0]).MessageLine? then Some(words[1]) else None
  }

  function DefinesGroup(words: Line): Option<Tag> {
    if |words| >= 5 && DirectiveOf(words[0]).GroupLine? then ParseTag(words[1]) else None
  }

  function DefinesComponent(words: Line): Option<string> {
    if |words| >= 3 && DirectiveOf(words[0]).ComponentLine? then Some(words[1]) else None
  }

  predicate IsVersion(words: Line) {
    |words| >= 2 && DirectiveOf(words[0]).VersionLine?
  }

  ghost predicate FieldClash(a: Line, b: Line) {
    var f, g := DefinesField(a), DefinesField(b);
    f.Some? && g.Some? && (f.value.0 == g.value.0 || f.value.1 == g.value.1)
  }

  ghost predicate MessageClash(a: Line, b: Line) {
    DefinesMessage(a).Some? && DefinesMessage(a) == DefinesMessage(b)
  }

  ghost predicate NoClash(doc: seq<Line>) {
    forall i, j :: 0 <= i < j < |doc| ==> !FieldClash(doc[i], doc[j]) && !MessageClash(doc[i], doc[j])
  }

  // ------------------------------------------------------------ one line

  ghost predicate Unclaimed(s: Runtime.Raw, words: Line) {
    && (DefinesField(words).Some? ==>
          DefinesField(words).value.0 !in s.fields && DefinesField(words).value.1 !in s.fieldByName)
    && (DefinesMessage(words).Some? ==> DefinesMessage(words).value !in s.messages)
  }

  lemma ValuesAgree(words: seq<string>)
    ensures var vs, gs := Runtime.ReadValues(words), GenValues(words);
            |vs| == |gs| && forall i :: 0 <= i < |vs| ==> vs[i] == gs[i].0
  {
  }

  lemma {:induction false} LabelsAgree(words: seq<string>)
    ensures Runtime.ReadLabels(words) == LabelsOf(GenValues(words))
  {
    if words != [] {
      LabelsAgree(words[..|words| - 1]);
      assert GenValues(words)[..|words| - 1] == GenValues(words[..|words| - 1]);
    }
  }

  lemma FieldsAgree(args: seq<string>, tag: Tag)
    requires |args| >= 3
    ensures SameField(Runtime.FieldOf(args, tag), GenField(args[1], args[2], GenValues(WithoutOpen(args[3..]))))
  {
    hide Runtime.ReadValues;
    hide Runtime.ReadLabels;
    hide GenValues;
    hide LabelsOf;
    ValuesAgree(WithoutOpen(args[3..]));
    LabelsAgree(WithoutOpen(args[3..]));
  }

  lemma {:induction false} TagsAgree(words: seq<string>)
    ensures Runtime.ReadTags(words).Some? <==> AllNumeric(words)
  {
    hide ParseTag;
    if words != [] {
      var init, last := words[..|words| - 1], words[|words| - 1];
      TagsAgree(init);
      assert words == init + [last];
    }
  }

  lemma MessageAdded(ms: map<string, Runtime.RawMessage>, ns: seq<RawGenMessage>, m: Runtime.RawMessage, n: RawGenMessage)
    requires SameRawMessages(ms, ns) && SameRawMessage(m, n) && n.msgType !in ms
    ensures SameRawMessages(ms[n.msgType := m], ns + [n])
  {
    var ms', ns' := ms[n.msgType := m], ns + [n];
    hide SameRawMessage;
    forall k | k in ms' ensures exists i :: 0 <= i < |ns'| && ns'[i].msgType == k {
      if k == n.msgType {
        assert ns'[|ns|].msgType == k;
      } else {
        var i :| 0 <= i < |ns| && ns[i].msgType == k;
        assert ns'[i].msgType == k;
      }
    }
  }

  lemma FieldStep(s: Runtime.Raw, g: RawGen, args: seq<string>, line: nat)
    requires Matches(s, g)
    ensures var r, q := Runtime.StepField(s, args, line), GenFieldLine(g, args, line);
            && (r.Good? <==> q.Good? && Runtime.KnownType(args[2])
                             && ParseTag(args[0]).value !in s.fields && args[1] !in s.fieldByName)
            && (r.Good? ==> Matches(r.value, q.value))
  {
    hide ParseTag;
    hide Runtime.KnownType;
    hide Runtime.FieldOf;
    hide SameField;
    hide SameRawGroups;
    hide SameRawMessages;
    if |args| >= 3 && ParseTag(args[0]).Some? {
      FieldsAgree(args, ParseTag(args[0]).value);
    }
  }

  lemma MessageStep(s: Runtime.Raw, g: RawGen, args: seq<string>, line: nat)
    requires Matches(s, g)
    ensures var r, q := Runtime.StepMessage(s, args, line), GenMessageLine(g, args, line);
            && (r.Good? <==> q.Good? && args[0] !in s.messages)
            && (r.Good? ==> Matches(r.value, q.value))
  {
    hide SameFields;
    hide SameRawGroups;
    hide SameRawMessages;
    hide ReadModifiers;
    if |args| >= 2 && ReadModifiers(args[2..]).Good? && args[0] !in s.messages {
      var m := ReadModifiers(args[2..]).value;
      MessageAdded(s.messages, g.messages,
                   Runtime.RawMessage(args[1], m.required, m.optional, m.ordered),
                   RawGenMessage(args[0], args[1], m.required, m.optional, m.ordered));
    }
  }

  lemma GroupStep(s: Runtime.Raw, g: RawGen, args: seq<string>, line: nat)
    requires Matches(s, g)
    ensures var r, q := Runtime.StepGroup(s, args, line), GenGroupLine(g, args, line);
            && (r.Good? <==> q.Good? && Runtime.ReadRequired(args[4..]).Good?)
            && (r.Good? ==> Matches(r.value, q.value))
  {
    hide SameFields;
    hide SameRawMessages;
    hide MemberList;
    hide Runtime.ReadRequired;
    hide ParseTag;
  }

  ghost predicate LineAgrees(s: Runtime.Raw, g: RawGen, words: Line, line: nat) {
    var r, q := Runtime.StepLine(s, words, line), GenLine(g, words, line);
    && (r.Good? <==> q.Good? && RuntimeLine(words) && Unclaimed(s, words))
    && (r.Good? ==> Matches(r.value, q.value))
  }

  lemma FieldLineAgrees(s: Runtime.Raw, g: RawGen, words: Line, line: nat)
    requires Matches(s, g) && words != [] && DirectiveOf(words[0]).FieldLine?
    ensures LineAgrees(s, g, words, line)
  {
    hide Runtime.StepField;
    hide GenFieldLine;
    hide DirectiveOf;
    hide Matches;
    FieldStep(s, g, words[1..], line);
    FieldNeeds(g, words[1..], line);
  }

  lemma MessageLineAgrees(s: Runtime.Raw, g: RawGen, words: Line, line: nat)
    requires Matches(s, g) && words != [] && DirectiveOf(words[0]).MessageLine?
    ensures LineAgrees(s, g, words, line)
  {
    hide Runtime.StepMessage;
    hide GenMessageLine;
    hide DirectiveOf;
    hide Matches;
    MessageStep(s, g, words[1..], line);
    MessageNeeds(g, words[1..], line);
  }

  lemma GroupLineAgrees(s: Runtime.Raw, g: RawGen, words: Line, line: nat)
    requires Matches(s, g) && words != [] && DirectiveOf(words[0]).GroupLine?
    ensures LineAgrees(s, g, words, line)
  {
    hide Runtime.StepGroup;
    hide GenGroupLine;
    hide DirectiveOf;
    hide Runtime.ReadRequired;
    hide Matches;
    GroupStep(s, g, words[1..], line);
    GroupNeeds(g, words[1..], line);
    assert |words| >= 5 ==> words[1..][4..] == words[5..];
  }

  lemma OtherLineAgrees(s: Runtime.Raw, g: RawGen, words: Line, line: nat)
    requires Matches(s, g) && words != []
    requires var d := DirectiveOf(words[0]); !d.FieldLine? && !d.MessageLine? && !d.GroupLine?
    ensures LineAgrees(s, g, words, line)
  {
    hide DirectiveOf;
    hide Runtime.ReadMeta;
    hide Runtime.ReadTags;
    hide AllNumeric;
    hide MemberList;
    hide SameFields;
    hide SameRawGroups;
    hide SameRawMessages;
    hide Runtime.StepField;
    hide Runtime.StepMessage;
    hide Runtime.StepGroup;
    hide GenFieldLine;
    hide GenMessageLine;
    hide GenGroupLine;
    hide ParseTag;
    hide Runtime.KnownType;
    hide Runtime.ReadRequired;
    assert DefinesField(words).None? && DefinesMessage(words).None?;
    match DirectiveOf(words[0]) {
      case HeaderLine => TagsAgree(words[1..]);
      case TrailerLine => TagsAgree(words[1..]);
      case MetaLine =>
      case ComponentLine =>
      case _ =>
    }
  }

  /** Given tables that match, the runtime reader takes a line exactly if the build-time one does and its own
      demands are met, and then the tables match again. */
  lemma LineStep(s: Runtime.Raw, g: RawGen, words: Line, line: nat)
    requires Matches(s, g)
    ensures LineAgrees(s, g, words, line)
  {
    if words != [] {
      hide *;
      match DirectiveOf(words[0]) {
        case FieldLine => FieldLineAgrees(s, g, words, line);
        case MessageLine => MessageLineAgrees(s, g, words, line);
        case GroupLine => GroupLineAgrees(s, g, words, line);
        case _ => OtherLineAgrees(s, g, words, line);
      }
    }
  }

  lemma FieldNeeds(g: RawGen, args: seq<string>, line: nat)
    ensures GenFieldLine(g, args, line).Good? <==> |args| >= 3 && ParseTag(args[0]).Some?
  {
  }

  lemma MessageNeeds(g: RawGen, args: seq<string>, line: nat)
    ensures GenMessageLine(g, args, line).Good? ==> |args| >= 2
  {
  }

  lemma GroupNeeds(g: RawGen, args: seq<string>, line: nat)
    ensures GenGroupLine(g, args, line).Good? ==> |args| >= 4
  {
  }

  // ------------------------------------------------------------ what the tables owe to the lines

  ghost function FieldTags(doc: seq<Line>): set<Tag> {
    set i | 0 <= i < |doc| && DefinesField(doc[i]).Some? :: DefinesField(doc[i]).value.0
  }

  ghost function FieldNames(doc: seq<Line>): set<string> {
    set i | 0 <= i < |doc| && DefinesField(doc[i]).Some? :: DefinesField(doc[i]).value.1
  }

  ghost function MessageTypes(doc: seq<Line>): set<string> {
    set i | 0 <= i < |doc| && DefinesMessage(doc[i]).Some? :: DefinesMessage(doc[i]).value
  }

  ghost function ComponentNames(doc: seq<Line>): set<string> {
    set i | 0 <= i < |doc| && DefinesComponent(doc[i]).Some? :: DefinesComponent(doc[i]).value
  }

  ghost predicate HasVersion(doc: seq<Line>) {
    exists i :: 0 <= i < |doc| && IsVersion(doc[i])
  }

  /** The line defines a group and no later line defines it again. */
  ghost predicate LastGroup(doc: seq<Line>, i: nat, c: Tag) {
    && i < |doc| && DefinesGroup(doc[i]) == Some(c)
    && forall j :: i < j < |doc| ==> DefinesGroup(doc[j]) != Some(c)
  }

  function RequiredOf(words: Line): seq<RawMember> {
    if |words| >= 5 && Runtime.ReadRequired(words[5..]).Good? then Runtime.ReadRequired(words[5..]).value else []
  }

  ghost predicate GroupsRecorded(doc: seq<Line>, groups: map<Tag, Runtime.RawGroup>) {
    && (forall i: nat, c :: LastGroup(doc, i, c) ==> c in groups && groups[c].required == RequiredOf(doc[i]))
    && (forall c :: c in groups ==> exists i: nat :: LastGroup(doc, i, c))
  }

  ghost predicate Recorded(doc: seq<Line>, s: Runtime.Raw) {
    && s.fields.Keys == FieldTags(doc) && s.fieldByName.Keys == FieldNames(doc)
    && s.messages.Keys == MessageTypes(doc) && s.components.Keys == ComponentNames(doc)
    && (s.version.Some? <==> HasVersion(doc))
    && GroupsRecorded(doc, s.groups)
  }

  /** What one accepted line adds to the runtime reader's tables. */
  ghost predicate Adds(s: Runtime.Raw, words: Line, t: Runtime.Raw) {
    && t.fields.Keys == s.fields.Keys + (if DefinesField(words).Some? then {DefinesField(words).value.0} else {})
    && t.fieldByName.Keys == s.fieldByName.Keys + (if DefinesField(words).Some? then {DefinesField(words).value.1} else {})
    && t.messages.Keys == s.messages.Keys + (if DefinesMessage(words).Some? then {DefinesMessage(words).value} else {})
    && t.components.Keys == s.components.Keys + (if DefinesComponent(words).Some? then {DefinesComponent(words).value} else {})
    && (t.version.Some? <==> s.version.Some? || IsVersion(words))
    && (DefinesGroup(words).None? ==> t.groups == s.groups)
    && (DefinesGroup(words).Some? ==>
          exists g: Runtime.RawGroup :: g.required == RequiredOf(words) && t.groups == s.groups[DefinesGroup(words).value := g])
  }

  lemma FieldAdds(s: Runtime.Raw, words: Line, line: nat)
    requires words != [] && DirectiveOf(words[0]).FieldLine? && Runtime.StepField(s, words[1..], line).Good?
    ensures Adds(s, words, Runtime.StepField(s, words[1..], line).value)
  {
    hide ParseTag;
    hide Runtime.KnownType;
    hide Runtime.FieldOf;
    hide DirectiveOf;
    hide RequiredOf;
  }

  lemma MessageAdds(s: Runtime.Raw, words: Line, line: nat)
    requires words != [] && DirectiveOf(words[0]).MessageLine? && Runtime.StepMessage(s, words[1..], line).Good?
    ensures Adds(s, words, Runtime.StepMessage(s, words[1..], line).value)
  {
    hide ParseTag;
    hide ReadModifiers;
    hide DirectiveOf;
    hide RequiredOf;
  }

  lemma GroupAdds(s: Runtime.Raw, words: Line, line: nat)
    requires words != [] && DirectiveOf(words[0]).GroupLine? && Runtime.StepGroup(s, words[1..], line).Good?
    ensures Adds(s, words, Runtime.StepGroup(s, words[1..], line).value)
  {
    hide ParseTag;
    hide MemberList;
    hide Runtime.ReadRequired;
    hide DirectiveOf;
    assert words[1..][4..] == words[5..];
    var c, t := ParseTag(words[1]).value, Runtime.StepGroup(s, words[1..], line).value;
    var g := t.groups[c];
    assert g.required == RequiredOf(words) && t.groups == s.groups[c := g];
  }

  lemma OtherAdds(s: Runtime.Raw, words: Line, line: nat)
    requires Runtime.StepLine(s, words, line).Good?
    requires words != [] ==> var d := DirectiveOf(words[0]); !d.FieldLine? && !d.MessageLine? && !d.GroupLine?
    ensures Adds(s, words, Runtime.StepLine(s, words, line).value)
  {
    hide ParseTag;
    hide MemberList;
    hide Runtime.ReadMeta;
    hide Runtime.ReadTags;
    hide Runtime.StepField;
    hide Runtime.StepMessage;
    hide Runtime.StepGroup;
    hide RequiredOf;
    hide DirectiveOf;
    assert DefinesField(words).None? && DefinesMessage(words).None? && DefinesGroup(words).None?;
    if words != [] {
      match DirectiveOf(words[0]) {
        case ComponentLine => assert !IsVersion(words);
        case VersionLine => assert DefinesComponent(words).None?;
        case MetaLine =>
        case HeaderLine =>
        case TrailerLine =>
        case _ =>
      }
    }
  }

  lemma LineAdds(s: Runtime.Raw, words: Line, line: nat)
    requires Runtime.StepLine(s, words, line).Good?
    ensures Adds(s, words, Runtime.StepLine(s, words, line).value)
  {
    hide Adds;
    hide DirectiveOf;
    hide Runtime.StepField;
    hide Runtime.StepMessage;
    hide Runtime.StepGroup;
    if words == [] {
      OtherAdds(s, words, line);
    } else {
      match DirectiveOf(words[0]) {
        case FieldLine => FieldAdds(s, words, line);
        case MessageLine => MessageAdds(s, words, line);
        case GroupLine => GroupAdds(s, words, line);
        case _ => OtherAdds(s, words, line);
      }
    }
  }

  lemma FieldTagsSnoc(doc: seq<Line>, words: Line)
    ensures var f := DefinesField(words);
            && FieldTags(doc + [words]) == FieldTags(doc) + (if f.Some? then {f.value.0} else {})
            && FieldNames(doc + [words]) == FieldNames(doc) + (if f.Some? then {f.value.1} else {})
  {
    hide DefinesField;
    var more := doc + [words];
    assert more[|doc|] == words && forall i :: 0 <= i < |doc| ==> more[i] == doc[i];
    forall i | 0 <= i < |doc| && DefinesField(doc[i]).Some?
      ensures DefinesField(doc[i]).value.0 in FieldTags(more) && DefinesField(doc[i]).value.1 in FieldNames(more)
    {
      assert more[i] == doc[i];
    }
  }

  lemma NamesSnoc(doc: seq<Line>, words: Line)
    ensures MessageTypes(doc + [words]) == MessageTypes(doc) + (if DefinesMessage(words).Some? then {DefinesMessage(words).value} else {})
    ensures ComponentNames(doc + [words]) == ComponentNames(doc) + (if DefinesComponent(words).Some? then {DefinesComponent(words).value} else {})
    ensures HasVersion(doc + [words]) <==> HasVersion(doc) || IsVersion(words)
  {
    hide DefinesMessage;
    hide DefinesComponent;
    hide IsVersion;
    var more := doc + [words];
    assert more[|doc|] == words && forall i :: 0 <= i < |doc| ==> more[i] == doc[i];
    forall i | 0 <= i < |doc| && DefinesMessage(doc[i]).Some? ensures DefinesMessage(doc[i]).value in MessageTypes(more) {
      assert more[i] == doc[i];
    }
    forall i | 0 <= i < |doc| && DefinesComponent(doc[i]).Some? ensures DefinesComponent(doc[i]).value in ComponentNames(more) {
      assert more[i] == doc[i];
    }
    if HasVersion(doc) {
      var i :| 0 <= i < |doc| && IsVersion(doc[i]);
      assert IsVersion(more[i]);
    }
  }

  lemma LastGroupSnoc(doc: seq<Line>, words: Line, i: nat, c: Tag)
    ensures LastGroup(doc + [words], i, c) <==>
              if DefinesGroup(words) == Some(c) then i == |doc| else LastGroup(doc, i, c)
  {
    hide DefinesGroup;
    var more := doc + [words];
    assert more[|doc|] == words;
    assert forall j :: 0 <= j < |doc| ==> more[j] == doc[j];
  }

  lemma GroupsSnoc(doc: seq<Line>, words: Line, groups: map<Tag, Runtime.RawGroup>, after: map<Tag, Runtime.RawGroup>)
    requires GroupsRecorded(doc, groups)
    requires DefinesGroup(words).None? ==> after == groups
    requires DefinesGroup(words).Some? ==>
               exists g: Runtime.RawGroup :: g.required == RequiredOf(words) && after == groups[DefinesGroup(words).value := g]
    ensures GroupsRecorded(doc + [words], after)
  {
    hide DefinesGroup;
    hide RequiredOf;
    hide LastGroup;
    var more := doc + [words];
    assert more[|doc|] == words;
    forall i: nat, c | LastGroup(more, i, c) ensures i < |more| {
      LastGroupInside(more, i, c);
    }
    forall i: nat, c | LastGroup(more, i, c) ensures c in after && after[c].required == RequiredOf(more[i]) {
      LastGroupSnoc(doc, words, i, c);
      if DefinesGroup(words) != Some(c) {
        LastGroupInside(doc, i, c);
        assert more[i] == doc[i];
      }
    }
    forall c | c in after ensures exists i: nat :: LastGroup(more, i, c) {
      if DefinesGroup(words) == Some(c) {
        LastGroupSnoc(doc, words, |doc|, c);
      } else {
        var i: nat :| LastGroup(doc, i, c);
        LastGroupSnoc(doc, words, i, c);
      }
    }
  }

  lemma LastGroupInside(doc: seq<Line>, i: nat, c: Tag)
    requires LastGroup(doc, i, c)
    ensures i < |doc|
  {
  }

  lemma RecordedSnoc(doc: seq<Line>, s: Runtime.Raw, words: Line, t: Runtime.Raw)
    requires Recorded(doc, s) && Adds(s, words, t)
    ensures Recorded(doc + [words], t)
  {
    hide FieldTags;
    hide FieldNames;
    hide MessageTypes;
    hide ComponentNames;
    hide HasVersion;
    hide GroupsRecorded;
    hide DefinesField;
    hide DefinesMessage;
    hide DefinesComponent;
    hide DefinesGroup;
    hide IsVersion;
    hide RequiredOf;
    FieldTagsSnoc(doc, words);
    NamesSnoc(doc, words);
    GroupsSnoc(doc, words, s.groups, t.groups);
  }

  // ------------------------------------------------------------ all lines

  lemma NoClashSnoc(doc: seq<Line>, words: Line, s: Runtime.Raw)
    requires Recorded(doc, s)
    ensures NoClash(doc + [words]) <==> NoClash(doc) && Unclaimed(s, words)
  {
    hide DefinesField;
    hide DefinesMessage;
    hide DefinesComponent;
    hide DefinesGroup;
    hide GroupsRecorded;
    hide HasVersion;
    var more := doc + [words];
    assert more[|doc|] == words && forall i :: 0 <= i < |doc| ==> more[i] == doc[i];
    assert Unclaimed(s, words) <==> forall i :: 0 <= i < |doc| ==> !FieldClash(doc[i], words) && !MessageClash(doc[i], words);
    if NoClash(more) {
      forall i, j | 0 <= i < j < |doc| ensures !FieldClash(doc[i], doc[j]) && !MessageClash(doc[i], doc[j]) {
        assert more[i] == doc[i] && more[j] == doc[j];
      }
      forall i | 0 <= i < |doc| ensures !FieldClash(doc[i], words) && !MessageClash(doc[i], words) {
        assert more[i] == doc[i];
      }
    }
  }

  ghost predicate RuntimeLines(doc: seq<Line>) {
    (forall i :: 0 <= i < |doc| ==> RuntimeLine(doc[i])) && NoClash(doc)
  }

  lemma RuntimeLinesSnoc(doc: seq<Line>, words: Line)
    ensures RuntimeLines(doc + [words]) ==> RuntimeLines(doc)
    ensures (forall i :: 0 <= i <= |doc| ==> RuntimeLine((doc + [words])[i])) <==>
              (forall i :: 0 <= i < |doc| ==> RuntimeLine(doc[i])) && RuntimeLine(words)
  {
    hide RuntimeLine;
    hide FieldClash;
    hide MessageClash;
    var more := doc + [words];
    assert more[|doc|] == words;
    forall i | 0 <= i < |doc| ensures more[i] == doc[i] {}
    if forall i :: 0 <= i <= |doc| ==> RuntimeLine(more[i]) {
      forall i | 0 <= i < |doc| ensures RuntimeLine(doc[i]) {
        assert RuntimeLine(more[i]);
      }
    }
    if NoClash(more) {
      forall i, j | 0 <= i < j < |doc| ensures !FieldClash(doc[i], doc[j]) && !MessageClash(doc[i], doc[j]) {
        assert more[i] == doc[i] && more[j] == doc[j];
      }
    }
  }

  /** Line by line, the two readers go on together for as long as the runtime one accepts. */
  lemma {:induction false} LinesAgree(doc: seq<Line>)
    ensures Runtime.Lines(doc).Good? <==> GenLines(doc).Good? && RuntimeLines(doc)
    ensures Runtime.Lines(doc).Good? ==>
              Matches(Runtime.Lines(doc).value, GenLines(doc).value) && Recorded(doc, Runtime.Lines(doc).value)
  {
    if doc == [] {
      EmptyRecorded();
    } else {
      hide Runtime.StepLine;
      hide GenLine;
      hide Matches;
      hide Recorded;
      hide RuntimeLine;
      hide Unclaimed;
      hide NoClash;
      hide Adds;
      var init, words := doc[..|doc| - 1], doc[|doc| - 1];
      assert doc == init + [words];
      LinesAgree(init);
      RuntimeLinesSnoc(init, words);
      if Runtime.Lines(init).Good? {
        var s, g := Runtime.Lines(init).value, GenLines(init).value;
        LineStep(s, g, words, |doc|);
        NoClashSnoc(init, words, s);
        if Runtime.StepLine(s, words, |doc|).Good? {
          LineAdds(s, words, |doc|);
          RecordedSnoc(init, s, words, Runtime.StepLine(s, words, |doc|).value);
        }
      }
    }
  }

  lemma EmptyRecorded()
    ensures Matches(Runtime.EMPTY, NOTHING) && Recorded([], Runtime.EMPTY)
  {
  }

  // ------------------------------------------------------------ the whole document

  /** What the runtime reader demands beyond the build-time one: every line as above, no tag, name or message
      type defined twice, some version line, and only defined components in the required lists that count. */
  ghost predicate RuntimeOnly(doc: seq<Line>) {
    && RuntimeLines(doc) && HasVersion(doc)
    && forall i: nat, c, n :: LastGroup(doc, i, c) && ComponentRef(n) in RequiredOf(doc[i]) ==> n in ComponentNames(doc)
  }

  lemma RequiredKnown(doc: seq<Line>, s: Runtime.Raw)
    requires Recorded(doc, s)
    ensures (forall c :: c in s.groups ==> Refers(s.components, s.groups[c].required)) <==>
              forall i: nat, c, n :: LastGroup(doc, i, c) && ComponentRef(n) in RequiredOf(doc[i]) ==> n in ComponentNames(doc)
  {
    hide LastGroup;
    hide RequiredOf;
    hide ComponentNames;
    hide FieldTags;
    hide FieldNames;
    hide MessageTypes;
    hide HasVersion;
    forall i: nat, c | LastGroup(doc, i, c) ensures i < |doc| && c in s.groups && s.groups[c].required == RequiredOf(doc[i]) {
      LastGroupInside(doc, i, c);
    }
    if forall i: nat, c, n :: LastGroup(doc, i, c) && ComponentRef(n) in RequiredOf(doc[i]) ==> n in ComponentNames(doc) {
      forall c, n | c in s.groups && ComponentRef(n) in s.groups[c].required ensures n in s.components {
        var i: nat :| LastGroup(doc, i, c);
        assert ComponentRef(n) in RequiredOf(doc[i]);
      }
    }
  }

  lemma CompilesAgree(s: Runtime.Raw, g: RawGen)
    requires Matches(s, g)
    ensures Compiles(s) <==>
              && GenCompiles(g) && s.version.Some?
              && forall c :: c in s.groups ==> Refers(s.components, s.groups[c].required)
  {
    hide SameFields;
    hide Refers;
    hide Closed;
    hide Acyclic;
    hide RefGraph;
    var ms, ns := s.messages, g.messages;
    if forall i :: 0 <= i < |ns| ==> Refers(g.components, ns[i].required) && Refers(g.components, ns[i].optional) {
      forall k | k in ms ensures Refers(s.components, ms[k].required) && Refers(s.components, ms[k].optional) {
        var i :| 0 <= i < |ns| && ns[i].msgType == k;
      }
    }
  }

  /** The runtime reader accepts a document exactly when the build-time reader does and the document meets
      the runtime's further demands; in particular it never accepts one that the other refuses. */
  lemma AcceptanceExactly(doc: seq<Line>)
    ensures Accepts(doc) <==> GenAccepts(doc) && RuntimeOnly(doc)
  {
    hide RuntimeLines;
    hide Matches;
    hide Compiles;
    hide GenCompiles;
    hide Runtime.Lines;
    hide GenLines;
    hide LastGroup;
    hide RequiredOf;
    hide ComponentNames;
    LinesAgree(doc);
    if Runtime.Lines(doc).Good? {
      var s, g := Runtime.Lines(doc).value, GenLines(doc).value;
      CompilesAgree(s, g);
      RequiredKnown(doc, s);
    }
  }

  // ------------------------------------------------------------ the same content

  ghost predicate SameGroups(gs: map<Tag, Dictionary.GroupDef>, hs: map<Tag, GenGroup>) {
    gs.Keys == hs.Keys && forall c :: c in gs ==> gs[c].delimiter == hs[c].delimiter && gs[c].members == hs[c].members
  }

  ghost predicate SameMessage(m: Dictionary.MessageDef, n: GenMessage) {
    && m.msgType == n.msgType && m.name == n.name
    && m.required == n.required && m.optional == n.optional && m.fieldOrder == n.fieldOrder
  }

  ghost predicate SameMessages(ms: map<string, Dictionary.MessageDef>, ns: seq<GenMessage>) {
    && (forall i :: 0 <= i < |ns| ==> ns[i].msgType in ms && SameMessage(ms[ns[i].msgType], ns[i]))
    && (forall i, j :: 0 <= i < j < |ns| ==> ns[i].msgType != ns[j].msgType)
    && (forall k :: k in ms ==> exists i :: 0 <= i < |ns| && ns[i].msgType == k)
  }

  ghost predicate SameContent(d: Dictionary.Dict, e: GenDict) {
    SameFields(d.fields, e.fields) && SameGroups(d.groups, e.groups) && SameMessages(d.messages, e.messages)
  }

  lemma GroupsAgree(s: Runtime.Raw, g: RawGen, d: Dictionary.Dict, e: GenDict)
    requires Matches(s, g) && IsCompiled(s, d) && IsGenCompiled(g, e)
    ensures SameGroups(d.groups, e.groups)
  {
    hide SameFields;
    hide SameRawMessages;
    hide ExpandsMembers;
    hide MessageCompiled;
    hide GenMessageCompiled;
    hide IsResolution;
    hide ChildOf;
    forall c | c in d.groups ensures d.groups[c].delimiter == e.groups[c].delimiter && d.groups[c].members == e.groups[c].members {
      assert GroupCompiled(s, ShapesOf(d.groups), c, d.groups[c]) && GenGroupCompiled(g.components, g.groups[c], e.groups[c]);
      ExpandsMembersUnique(s.components, s.groups[c].members, d.groups[c].members, e.groups[c].members);
    }
  }

  lemma MessageAgrees(s: Runtime.Raw, k: string, m: Dictionary.MessageDef, groups: map<Tag, Dictionary.GroupDef>, from: RawGenMessage, n: GenMessage)
    requires k in s.messages && MessageCompiled(s, groups, k, m)
    requires SameRawMessage(s.messages[k], from) && from.msgType == k && GenMessageCompiled(s.components, from, n)
    ensures SameMessage(m, n)
  {
    hide ExpandsMembers;
    ExpandsMembersUnique(s.components, from.required, m.required, n.required);
    ExpandsMembersUnique(s.components, from.optional, m.optional, n.optional);
  }

  lemma MessagesAgree(s: Runtime.Raw, g: RawGen, d: Dictionary.Dict, e: GenDict)
    requires Matches(s, g) && IsCompiled(s, d) && IsGenCompiled(g, e)
    ensures SameMessages(d.messages, e.messages)
  {
    hide SameFields;
    hide SameRawGroups;
    hide SameRawMessage;
    hide SameMessage;
    hide GroupCompiled;
    hide GenGroupCompiled;
    hide MessageCompiled;
    hide IsResolution;
    var ns, from := e.messages, g.messages;
    forall i | 0 <= i < |ns| ensures ns[i].msgType == from[i].msgType && ns[i].msgType in d.messages && SameMessage(d.messages[ns[i].msgType], ns[i]) {
      assert GenMessageCompiled(g.components, from[i], ns[i]);
      MessageAgrees(s, from[i].msgType, d.messages[from[i].msgType], d.groups, from[i], ns[i]);
    }
    forall k | k in d.messages ensures exists i :: 0 <= i < |ns| && ns[i].msgType == k {
      var i :| 0 <= i < |from| && from[i].msgType == k;
      assert ns[i].msgType == k;
    }
  }

  /** Where both readers accept, they read the same: every field's name, type word, values and labels; every
      group's delimiter and expanded members; every message's name and required, optional and ordered lists. */
  lemma TracksAgree(doc: seq<Line>, d: Dictionary.Dict, e: GenDict)
    requires Accepts(doc) && IsCompiled(Runtime.Lines(doc).value, d)
    requires GenAccepts(doc) && IsGenCompiled(GenLines(doc).value, e)
    ensures SameContent(d, e)
  {
    hide Runtime.Lines;
    hide GenLines;
    hide Compiles;
    hide GenCompiles;
    LinesAgree(doc);
    var s, g := Runtime.Lines(doc).value, GenLines(doc).value;
    GroupsAgree(s, g, d, e);
    MessagesAgree(s, g, d, e);
  }

  /** Both readers on one document. */
  method ReadBoth(doc: seq<Line>)
    returns (r: Parsed<Dictionary.Dict, Runtime.RuntimeError>, q: Parsed<GenDict, CodegenError>)
    ensures r.Good? ==> q.Good? && SameContent(r.value, q.value)
    ensures r.Good? <==> q.Good? && RuntimeOnly(doc)
  {
    hide SameContent;
    hide RuntimeOnly;
    hide Accepts;
    hide GenAccepts;
    hide IsCompiled;
    hide IsGenCompiled;
    r := ParseDictionary(doc);
    q := ParseForCodegen(doc);
    AcceptanceExactly(doc);
    if r.Good? {
      TracksAgree(doc, r.value, q.value);
    }
  }
}
