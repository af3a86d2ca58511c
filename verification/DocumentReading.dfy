/** Whole documents: which ones the two readers take and what they then hold, in terms of the lines alone. */
module DocumentReading {
  import opened Decimal
  import opened FieldMaps
  import opened Dictionary
  import opened Components
  import opened DictionaryLines
  import opened DictionaryWords
  import opened DocumentTables
  import Runtime = RuntimeTrack
  import Gen = CodegenTrack
  import DualTrack
  import RuntimeDictionary

  // ------------------------------------------------------------ directives

  lemma DirectiveExactly(word: string)
    ensures DirectiveOf(word).VersionLine? <==> word == "version"
    ensures DirectiveOf(word).MetaLine? <==> word == "version-meta"
    ensures DirectiveOf(word).FieldLine? <==> word == "field"
    ensures DirectiveOf(word).HeaderLine? <==> word == "header"
    ensures DirectiveOf(word).TrailerLine? <==> word == "trailer"
    ensures DirectiveOf(word).MessageLine? <==> word == "message"
    ensures DirectiveOf(word).GroupLine? <==> word == "group"
    ensures DirectiveOf(word).ComponentLine? <==> word == "component"
  {
    assert "group"[0] == 'g' && "version"[0] == 'v' && "field"[0] == 'f' && "header"[0] == 'h' && "trailer"[0] == 't';
    assert "message"[0] == 'm' && "component"[0] == 'c' && "version-meta"[0] == 'v';
    assert |"version"| == 7 && |"version-meta"| == 12;
  }

  // ------------------------------------------------------------ one line of the runtime reader

  /** What the tables are after a line, given what they were. */
  ghost predicate Enters(s: Runtime.Raw, words: Line, t: Runtime.Raw) {
    && t.fields == Entered(s.fields, FieldAt(words))
    && t.messages == Entered(s.messages, MessageAt(words))
    && t.groups == Entered(s.groups, GroupAt(words))
    && t.components == Entered(s.components, ComponentAt(words))
    && t.header == s.header + TagsAt(words, "header")
    && t.trailer == s.trailer + TagsAt(words, "trailer")
    && t.version == (if VersionAt(words).Some? then Some(VersionAt(words).value.1) else s.version)
    && t.meta == (if MetaAt(words).Some? then Some(MetaAt(words).value.1) else s.meta)
  }

  /** A line of one directive has nothing to say to the tables of the others. */
  lemma SaysOne(words: Line)
    requires words != []
    ensures words[0] != "field" ==> FieldAt(words).None?
    ensures words[0] != "message" ==> MessageAt(words).None?
    ensures words[0] != "group" ==> GroupAt(words).None?
    ensures words[0] != "component" ==> ComponentAt(words).None?
    ensures words[0] != "header" ==> TagsAt(words, "header") == {}
    ensures words[0] != "trailer" ==> TagsAt(words, "trailer") == {}
    ensures words[0] != "version" ==> VersionAt(words).None?
    ensures words[0] != "version-meta" ==> MetaAt(words).None?
  {
    hide ParseTag;
    hide MemberList;
    hide ReadModifiers;
    hide Runtime.ReadRequired;
    hide Runtime.ReadMeta;
    hide Runtime.FieldOf;
  }

  lemma FieldEnters(s: Runtime.Raw, words: Line, line: nat)
    requires words != [] && words[0] == "field" && Runtime.StepField(s, words[1..], line).Good?
    ensures Runtime.StepField(s, words[1..], line).value ==
            var t := Runtime.StepField(s, words[1..], line).value;
            s.(fields := Entered(s.fields, FieldAt(words)), fieldByName := t.fieldByName)
  {
    hide ParseTag;
    hide Runtime.KnownType;
    hide Runtime.FieldOf;
  }

  lemma MessageEnters(s: Runtime.Raw, words: Line, line: nat)
    requires words != [] && words[0] == "message" && Runtime.StepMessage(s, words[1..], line).Good?
    ensures Runtime.StepMessage(s, words[1..], line).value == s.(messages := Entered(s.messages, MessageAt(words)))
  {
    hide ReadModifiers;
    var args := words[1..];
    assert args[2..] == words[3..];
  }

  lemma GroupEnters(s: Runtime.Raw, words: Line, line: nat)
    requires words != [] && words[0] == "group" && Runtime.StepGroup(s, words[1..], line).Good?
    ensures Runtime.StepGroup(s, words[1..], line).value == s.(groups := Entered(s.groups, GroupAt(words)))
  {
    hide ParseTag;
    hide MemberList;
    hide Runtime.ReadRequired;
    var args := words[1..];
    assert args[4..] == words[5..];
  }

  lemma ComponentEnters(s: Runtime.Raw, words: Line, line: nat)
    requires words != [] && words[0] == "component" && Runtime.StepComponent(s, words[1..], line).Good?
    ensures Runtime.StepComponent(s, words[1..], line).value == s.(components := Entered(s.components, ComponentAt(words)))
  {
    hide MemberList;
  }

  lemma TagsEnter(s: Runtime.Raw, words: Line, line: nat, header: bool)
    requires words != [] && words[0] == (if header then "header" else "trailer")
    requires Runtime.StepTags(s, words[1..], line, header).Good?
    ensures Runtime.StepTags(s, words[1..], line, header).value ==
            if header then s.(header := s.header + TagsAt(words, "header"))
            else s.(trailer := s.trailer + TagsAt(words, "trailer"))
  {
    hide ParseTag;
    hide Runtime.ReadTags;
    assert words[1..|words|] == words[1..];
    ReadTagsCollects(words, |words|);
  }

  /** What a step does to the tables, if it takes its line. */
  ghost predicate StepEnters(s: Runtime.Raw, words: Line, step: Runtime.Step) {
    step.Good? ==> Enters(s, words, step.value)
  }

  lemma TableLineEnters(s: Runtime.Raw, words: Line, line: nat)
    requires words != []
    ensures words[0] == "field" ==> StepEnters(s, words, Runtime.StepField(s, words[1..], line))
    ensures words[0] == "message" ==> StepEnters(s, words, Runtime.StepMessage(s, words[1..], line))
  {
    hide FieldAt;
    hide MessageAt;
    hide GroupAt;
    hide ComponentAt;
    hide TagsAt;
    hide VersionAt;
    hide MetaAt;
    hide Runtime.StepField;
    hide Runtime.StepMessage;
    hide DirectiveOf;
    DirectiveExactly(words[0]);
    SaysOne(words);
    if words[0] == "field" && Runtime.StepField(s, words[1..], line).Good? { FieldEnters(s, words, line); }
    if words[0] == "message" && Runtime.StepMessage(s, words[1..], line).Good? { MessageEnters(s, words, line); }
  }

  lemma ListLineEnters(s: Runtime.Raw, words: Line, line: nat)
    requires words != []
    ensures words[0] == "group" ==> StepEnters(s, words, Runtime.StepGroup(s, words[1..], line))
    ensures words[0] == "component" ==> StepEnters(s, words, Runtime.StepComponent(s, words[1..], line))
  {
    hide FieldAt;
    hide MessageAt;
    hide GroupAt;
    hide ComponentAt;
    hide TagsAt;
    hide VersionAt;
    hide MetaAt;
    hide Runtime.StepGroup;
    hide Runtime.StepComponent;
    hide DirectiveOf;
    DirectiveExactly(words[0]);
    SaysOne(words);
    if words[0] == "group" && Runtime.StepGroup(s, words[1..], line).Good? { GroupEnters(s, words, line); }
    if words[0] == "component" && Runtime.StepComponent(s, words[1..], line).Good? { ComponentEnters(s, words, line); }
  }

  lemma TagLineEnters(s: Runtime.Raw, words: Line, line: nat)
    requires words != []
    ensures words[0] == "header" ==> StepEnters(s, words, Runtime.StepTags(s, words[1..], line, true))
    ensures words[0] == "trailer" ==> StepEnters(s, words, Runtime.StepTags(s, words[1..], line, false))
  {
    hide FieldAt;
    hide MessageAt;
    hide GroupAt;
    hide ComponentAt;
    hide TagsAt;
    hide VersionAt;
    hide MetaAt;
    hide Runtime.StepTags;
    hide DirectiveOf;
    DirectiveExactly(words[0]);
    SaysOne(words);
    if words[0] == "header" && Runtime.StepTags(s, words[1..], line, true).Good? { TagsEnter(s, words, line, true); }
    if words[0] == "trailer" && Runtime.StepTags(s, words[1..], line, false).Good? { TagsEnter(s, words, line, false); }
  }

  lemma VersionLineEnters(s: Runtime.Raw, words: Line, line: nat)
    requires words != []
    ensures words[0] == "version" ==> StepEnters(s, words, Runtime.StepVersion(s, words[1..], line))
    ensures words[0] == "version-meta" ==> StepEnters(s, words, Runtime.StepMeta(s, words[1..], line))
  {
    hide FieldAt;
    hide MessageAt;
    hide GroupAt;
    hide ComponentAt;
    hide TagsAt;
    hide Runtime.ReadMeta;
    hide DirectiveOf;
    DirectiveExactly(words[0]);
    SaysOne(words);
  }

  lemma LineEnters(s: Runtime.Raw, words: Line, line: nat)
    requires Runtime.StepLine(s, words, line).Good?
    ensures Enters(s, words, Runtime.StepLine(s, words, line).value)
  {
    if words != [] {
      hide DirectiveOf;
      hide Enters;
      hide Runtime.StepField;
      hide Runtime.StepMessage;
      hide Runtime.StepGroup;
      hide Runtime.StepComponent;
      hide Runtime.StepTags;
      hide Runtime.StepVersion;
      hide Runtime.StepMeta;
      DirectiveExactly(words[0]);
      TableLineEnters(s, words, line);
      ListLineEnters(s, words, line);
      TagLineEnters(s, words, line);
      VersionLineEnters(s, words, line);
    }
  }

  // ------------------------------------------------------------ all lines

  ghost predicate Holds(doc: seq<Line>, s: Runtime.Raw) {
    && s.fields == Table(doc, FieldAt) && s.messages == Table(doc, MessageAt)
    && s.groups == Table(doc, GroupAt) && s.components == Table(doc, ComponentAt)
    && s.header == Union(doc, (words: Line) => TagsAt(words, "header"))
    && s.trailer == Union(doc, (words: Line) => TagsAt(words, "trailer"))
  }

  ghost predicate HoldsVersion(doc: seq<Line>, s: Runtime.Raw) {
    && (forall v :: s.version == Some(v) <==> Has(Table(doc, VersionAt), "version", v))
    && (forall m :: s.meta == Some(m) <==> Has(Table(doc, MetaAt), "version-meta", m))
  }

  lemma {:induction false} LinesHoldVersion(doc: seq<Line>)
    requires Runtime.Lines(doc).Good?
    ensures HoldsVersion(doc, Runtime.Lines(doc).value)
  {
    if doc != [] {
      hide Runtime.StepLine;
      hide VersionAt;
      hide MetaAt;
      var init, words := doc[..|doc| - 1], doc[|doc| - 1];
      LinesHoldVersion(init);
      VersionEntered(Runtime.Lines(init).value, words, |doc|);
      KeysFixed(words);
    }
  }

  lemma VersionEntered(s: Runtime.Raw, words: Line, line: nat)
    requires Runtime.StepLine(s, words, line).Good?
    ensures var t := Runtime.StepLine(s, words, line).value;
            && t.version == (if VersionAt(words).Some? then Some(VersionAt(words).value.1) else s.version)
            && t.meta == (if MetaAt(words).Some? then Some(MetaAt(words).value.1) else s.meta)
  {
    hide Runtime.StepLine;
    LineEnters(s, words, line);
  }

  lemma {:induction false} LinesHold(doc: seq<Line>)
    requires Runtime.Lines(doc).Good?
    ensures Holds(doc, Runtime.Lines(doc).value)
  {
    if doc != [] {
      hide Runtime.StepLine;
      hide FieldAt;
      hide MessageAt;
      hide GroupAt;
      hide ComponentAt;
      hide TagsAt;
      hide VersionAt;
      hide MetaAt;
      var init, words := doc[..|doc| - 1], doc[|doc| - 1];
      LinesHold(init);
      LineEnters(Runtime.Lines(init).value, words, |doc|);
    }
  }

  lemma KeysFixed(words: Line)
    ensures VersionAt(words).Some? ==> VersionAt(words).value.0 == "version"
    ensures MetaAt(words).Some? ==> MetaAt(words).value.0 == "version-meta"
  {
    hide Runtime.ReadMeta;
  }

  /** The line for `k` that no later one replaces says `v`. */
  ghost predicate Latest<K(!new), V(!new)>(doc: seq<Line>, says: (Line, K, V) -> bool, k: K, v: V) {
    exists i :: 0 <= i < |doc| && says(doc[i], k, v) && forall j, w :: i < j < |doc| ==> !says(doc[j], k, w)
  }

  lemma TableIsLatest<K(!new), V(!new)>(doc: seq<Line>, at: Line -> Option<(K, V)>, says: (Line, K, V) -> bool, k: K, v: V)
    requires forall words, k, v :: at(words) == Some((k, v)) <==> says(words, k, v)
    ensures Has(Table(doc, at), k, v) <==> Latest(doc, says, k, v)
  {
    TableExactly(doc, at, k, v);
    if i: nat :| LastEntry(doc, at, i, k, v) {
      assert says(doc[i], k, v);
      forall j, w | i < j < |doc| ensures !says(doc[j], k, w) { }
    }
    if Latest(doc, says, k, v) {
      var i :| 0 <= i < |doc| && says(doc[i], k, v) && forall j, w :: i < j < |doc| ==> !says(doc[j], k, w);
      forall j | i < j < |doc| && at(doc[j]).Some? ensures at(doc[j]).value.0 != k {
        assert at(doc[j]) == Some((at(doc[j]).value.0, at(doc[j]).value.1));
      }
      assert LastEntry(doc, at, i, k, v);
    }
  }

  lemma HoldsTables(doc: seq<Line>, s: Runtime.Raw)
    requires Holds(doc, s)
    ensures forall t: Tag, def :: Has(s.fields, t, def) <==> Latest(doc, IsField, t, def)
    ensures forall k, m :: Has(s.messages, k, m) <==> Latest(doc, IsMessage, k, m)
    ensures forall c: Tag, g :: Has(s.groups, c, g) <==> Latest(doc, IsGroup, c, g)
    ensures forall n, ms :: Has(s.components, n, ms) <==> Latest(doc, IsComponent, n, ms)
  {
    hide *;
    forall words, t: Tag, def ensures FieldAt(words) == Some((t, def)) <==> IsField(words, t, def) { FieldAtExactly(words, t, def); }
    forall words, k, m ensures MessageAt(words) == Some((k, m)) <==> IsMessage(words, k, m) { MessageAtExactly(words, k, m); }
    forall words, c: Tag, g ensures GroupAt(words) == Some((c, g)) <==> IsGroup(words, c, g) { GroupAtExactly(words, c, g); }
    forall words, n, ms ensures ComponentAt(words) == Some((n, ms)) <==> IsComponent(words, n, ms) { ComponentAtExactly(words, n, ms); }
    HoldsFour(doc, s);
    forall t: Tag, def ensures Has(s.fields, t, def) <==> Latest(doc, IsField, t, def) {
      TableIsLatest(doc, FieldAt, IsField, t, def);
    }
    forall k, m ensures Has(s.messages, k, m) <==> Latest(doc, IsMessage, k, m) {
      TableIsLatest(doc, MessageAt, IsMessage, k, m);
    }
    forall c: Tag, g ensures Has(s.groups, c, g) <==> Latest(doc, IsGroup, c, g) {
      TableIsLatest(doc, GroupAt, IsGroup, c, g);
    }
    forall n, ms ensures Has(s.components, n, ms) <==> Latest(doc, IsComponent, n, ms) {
      TableIsLatest(doc, ComponentAt, IsComponent, n, ms);
    }
  }

  lemma HoldsFour(doc: seq<Line>, s: Runtime.Raw)
    requires Holds(doc, s)
    ensures s.fields == Table(doc, FieldAt) && s.messages == Table(doc, MessageAt)
    ensures s.groups == Table(doc, GroupAt) && s.components == Table(doc, ComponentAt)
  {
  }

  lemma HoldsSets(doc: seq<Line>, s: Runtime.Raw)
    requires Holds(doc, s)
    ensures forall t: Tag :: t in s.header <==> exists i :: 0 <= i < |doc| && ListsTag(doc[i], "header", t)
    ensures forall t: Tag :: t in s.trailer <==> exists i :: 0 <= i < |doc| && ListsTag(doc[i], "trailer", t)
  {
    hide ListsTag;
    hide TagsAt;
    hide Table;
    forall t: Tag ensures t in s.header <==> exists i :: 0 <= i < |doc| && ListsTag(doc[i], "header", t) {
      UnionExactly(doc, (words: Line) => TagsAt(words, "header"), t);
      forall i | 0 <= i < |doc| ensures t in TagsAt(doc[i], "header") <==> ListsTag(doc[i], "header", t) {
        TagsAtExactly(doc[i], "header", t);
      }
    }
    forall t: Tag ensures t in s.trailer <==> exists i :: 0 <= i < |doc| && ListsTag(doc[i], "trailer", t) {
      UnionExactly(doc, (words: Line) => TagsAt(words, "trailer"), t);
      forall i | 0 <= i < |doc| ensures t in TagsAt(doc[i], "trailer") <==> ListsTag(doc[i], "trailer", t) {
        TagsAtExactly(doc[i], "trailer", t);
      }
    }
  }

  lemma HoldsVersions(doc: seq<Line>, s: Runtime.Raw)
    requires HoldsVersion(doc, s)
    ensures forall v :: s.version == Some(v) <==> Latest(doc, IsVersion, "version", v)
    ensures forall m :: s.meta == Some(m) <==> Latest(doc, IsMeta, "version-meta", m)
  {
    hide MetaAt;
    hide IsMeta;
    hide Latest;
    hide Table;
    hide Has;
    forall words, k, v ensures VersionAt(words) == Some((k, v)) <==> IsVersion(words, k, v) { VersionAtExactly(words, k, v); }
    forall words, k, m ensures MetaAt(words) == Some((k, m)) <==> IsMeta(words, k, m) { MetaAtExactly(words, k, m); }
    forall v ensures s.version == Some(v) <==> Latest(doc, IsVersion, "version", v) {
      TableIsLatest(doc, VersionAt, IsVersion, "version", v);
    }
    forall m ensures s.meta == Some(m) <==> Latest(doc, IsMeta, "version-meta", m) {
      TableIsLatest(doc, MetaAt, IsMeta, "version-meta", m);
    }
  }

  /** What the runtime reader has collected from a document it takes, table by table: each entry is what the latest line
      for its key says, and the header and trailer are the tags their lines list. */
  lemma RuntimeTables(doc: seq<Line>)
    requires Runtime.Lines(doc).Good?
    ensures var s := Runtime.Lines(doc).value;
            && (forall t: Tag, def :: Has(s.fields, t, def) <==> Latest(doc, IsField, t, def))
            && (forall k, m :: Has(s.messages, k, m) <==> Latest(doc, IsMessage, k, m))
            && (forall c: Tag, g :: Has(s.groups, c, g) <==> Latest(doc, IsGroup, c, g))
            && (forall n, ms :: Has(s.components, n, ms) <==> Latest(doc, IsComponent, n, ms))
            && (forall t: Tag :: t in s.header <==> exists i :: 0 <= i < |doc| && ListsTag(doc[i], "header", t))
            && (forall t: Tag :: t in s.trailer <==> exists i :: 0 <= i < |doc| && ListsTag(doc[i], "trailer", t))
            && (forall v :: s.version == Some(v) <==> Latest(doc, IsVersion, "version", v))
            && (forall m :: s.meta == Some(m) <==> Latest(doc, IsMeta, "version-meta", m))
  {
    hide *;
    LinesHold(doc);
    LinesHoldVersion(doc);
    HoldsTables(doc, Runtime.Lines(doc).value);
    HoldsSets(doc, Runtime.Lines(doc).value);
    HoldsVersions(doc, Runtime.Lines(doc).value);
  }

  // ------------------------------------------------------------ the build-time reader

  ghost predicate GenEnters(s: Gen.RawGen, words: Line, t: Gen.RawGen) {
    && t.fields == Entered(s.fields, GenFieldAt(words))
    && t.groups == Entered(s.groups, GenGroupAt(words))
    && t.components == Entered(s.components, ComponentAt(words))
    && t.messages == s.messages + (if GenMessageAt(words).Some? then [GenMessageAt(words).value] else [])
  }

  lemma GenSaysOne(words: Line)
    requires words != []
    ensures words[0] != "field" ==> GenFieldAt(words).None?
    ensures words[0] != "message" ==> GenMessageAt(words).None?
    ensures words[0] != "group" ==> GenGroupAt(words).None?
    ensures words[0] != "component" ==> ComponentAt(words).None?
  {
    hide ParseTag;
    hide MemberList;
    hide ReadModifiers;
  }

  lemma GenFieldEnters(s: Gen.RawGen, words: Line, line: nat)
    requires words != [] && words[0] == "field" && Gen.GenFieldLine(s, words[1..], line).Good?
    ensures Gen.GenFieldLine(s, words[1..], line).value == s.(fields := Entered(s.fields, GenFieldAt(words)))
  {
    hide ParseTag;
    hide Gen.GenValues;
    var args := words[1..];
    assert args[3..] == words[4..];
  }

  lemma GenGroupEnters(s: Gen.RawGen, words: Line, line: nat)
    requires words != [] && words[0] == "group" && Gen.GenGroupLine(s, words[1..], line).Good?
    ensures Gen.GenGroupLine(s, words[1..], line).value == s.(groups := Entered(s.groups, GenGroupAt(words)))
  {
    hide ParseTag;
    hide MemberList;
  }

  lemma GenOtherEnters(s: Gen.RawGen, words: Line, line: nat)
    requires words != []
    ensures words[0] == "component" && Gen.GenComponentLine(s, words[1..], line).Good? ==>
              Gen.GenComponentLine(s, words[1..], line).value == s.(components := Entered(s.components, ComponentAt(words)))
    ensures words[0] == "message" && Gen.GenMessageLine(s, words[1..], line).Good? ==>
              GenMessageAt(words).Some?
              && Gen.GenMessageLine(s, words[1..], line).value == s.(messages := s.messages + [GenMessageAt(words).value])
  {
    hide MemberList;
    hide ReadModifiers;
    var args := words[1..];
    if |words| >= 3 { assert args[2..] == words[3..]; }
  }

  lemma GenLineEnters(s: Gen.RawGen, words: Line, line: nat)
    requires Gen.GenLine(s, words, line).Good?
    ensures GenEnters(s, words, Gen.GenLine(s, words, line).value)
  {
    if words != [] {
      hide DirectiveOf;
      hide GenFieldAt;
      hide GenGroupAt;
      hide GenMessageAt;
      hide ComponentAt;
      hide Gen.GenFieldLine;
      hide Gen.GenGroupLine;
      hide Gen.GenComponentLine;
      hide Gen.GenMessageLine;
      hide Gen.AllNumeric;
      DirectiveExactly(words[0]);
      GenSaysOne(words);
      GenOtherEnters(s, words, line);
      match DirectiveOf(words[0])
      case FieldLine => GenFieldEnters(s, words, line);
      case GroupLine => GenGroupEnters(s, words, line);
      case _ =>
    }
  }

  /** The message lines, in order. */
  function MessageLines(doc: seq<Line>): (lines: seq<Line>) {
    if doc == [] then []
    else
      var words := doc[|doc| - 1];
      MessageLines(doc[..|doc| - 1]) + if words != [] && words[0] == "message" then [words] else []
  }

  ghost predicate GenHolds(doc: seq<Line>, s: Gen.RawGen) {
    && s.fields == Table(doc, GenFieldAt) && s.groups == Table(doc, GenGroupAt) && s.components == Table(doc, ComponentAt)
    && |s.messages| == |MessageLines(doc)|
    && forall i :: 0 <= i < |s.messages| ==> GenMessageAt(MessageLines(doc)[i]) == Some(s.messages[i])
  }

  lemma {:induction false} GenLinesHold(doc: seq<Line>)
    requires Gen.GenLines(doc).Good?
    ensures GenHolds(doc, Gen.GenLines(doc).value)
  {
    if doc != [] {
      hide Gen.GenLine;
      hide GenFieldAt;
      hide GenGroupAt;
      hide GenMessageAt;
      hide ComponentAt;
      var init, words := doc[..|doc| - 1], doc[|doc| - 1];
      GenLinesHold(init);
      GenLineEnters(Gen.GenLines(init).value, words, |doc|);
      GenMessageSays(Gen.GenLines(init).value, words, |doc|);
    }
  }

  lemma GenMessageSays(s: Gen.RawGen, words: Line, line: nat)
    requires Gen.GenLine(s, words, line).Good?
    ensures GenMessageAt(words).Some? <==> words != [] && words[0] == "message"
  {
    if words != [] {
      hide DirectiveOf;
      DirectiveExactly(words[0]);
      hide ReadModifiers;
      hide Gen.GenFieldLine;
      hide Gen.GenGroupLine;
      hide Gen.GenComponentLine;
      hide Gen.AllNumeric;
      var args := words[1..];
      if |words| >= 3 { assert args[2..] == words[3..]; }
    }
  }

  /** What the build-time reader has collected from a document it takes: the same for its tables, and every message
      line, in order. */
  lemma GenTables(doc: seq<Line>)
    requires Gen.GenLines(doc).Good?
    ensures var s := Gen.GenLines(doc).value;
            && (forall t: Tag, f :: Has(s.fields, t, f) <==> Latest(doc, IsGenField, t, f))
            && (forall c: Tag, g :: Has(s.groups, c, g) <==> Latest(doc, IsGenGroup, c, g))
            && (forall n, ms :: Has(s.components, n, ms) <==> Latest(doc, IsComponent, n, ms))
            && |s.messages| == |MessageLines(doc)|
            && (forall i :: 0 <= i < |s.messages| ==> IsGenMessage(MessageLines(doc)[i], s.messages[i]))
  {
    GenLinesHold(doc);
    var s := Gen.GenLines(doc).value;
    hide Gen.GenLines;
    hide GenFieldAt;
    hide GenGroupAt;
    hide GenMessageAt;
    hide ComponentAt;
    hide IsGenField;
    hide IsGenGroup;
    hide IsGenMessage;
    hide IsComponent;
    hide Latest;
    hide Table;
    hide Has;
    hide MessageLines;
    forall words, t: Tag, f ensures GenFieldAt(words) == Some((t, f)) <==> IsGenField(words, t, f) { GenFieldAtExactly(words, t, f); }
    forall words, c: Tag, g ensures GenGroupAt(words) == Some((c, g)) <==> IsGenGroup(words, c, g) { GenGroupAtExactly(words, c, g); }
    forall words, n, ms ensures ComponentAt(words) == Some((n, ms)) <==> IsComponent(words, n, ms) { ComponentAtExactly(words, n, ms); }
    forall t: Tag, f ensures Has(s.fields, t, f) <==> Latest(doc, IsGenField, t, f) {
      TableIsLatest(doc, GenFieldAt, IsGenField, t, f);
    }
    forall c: Tag, g ensures Has(s.groups, c, g) <==> Latest(doc, IsGenGroup, c, g) {
      TableIsLatest(doc, GenGroupAt, IsGenGroup, c, g);
    }
    forall n, ms ensures Has(s.components, n, ms) <==> Latest(doc, IsComponent, n, ms) {
      TableIsLatest(doc, ComponentAt, IsComponent, n, ms);
    }
    forall i | 0 <= i < |s.messages| ensures IsGenMessage(MessageLines(doc)[i], s.messages[i]) {
      GenMessageAtExactly(MessageLines(doc)[i], s.messages[i]);
    }
  }

  // ------------------------------------------------------------ which documents are taken

  /** A line the build-time reader takes. */
  ghost predicate WellWritten(words: Line) {
    || words == []
    || Says(words, "version", 2)
    || Says(words, "version-meta", 1)
    || (Says(words, "field", 4) && SomeTag(words[1]))
    || (Says(words, "header", 1) && AllTags(words[1..]))
    || (Says(words, "trailer", 1) && AllTags(words[1..]))
    || (Says(words, "message", 3) && ListsSpelled(words[3..], "req:") && ListsSpelled(words[3..], "opt:"))
    || (Says(words, "group", 5) && SomeTag(words[1]) && SomeTag(words[3]) && SomeList(words[4]))
    || (Says(words, "component", 3) && SomeList(words[2]))
  }

  ghost predicate SomeList(word: string) {
    exists ms :: SpellsList(word, ms)
  }

  /** What the runtime reader asks of a line besides. */
  ghost predicate FitForRuntime(words: Line) {
    && (Says(words, "version-meta", 1) ==> exists m: Version :: IsMeta(words, "version-meta", m))
    && (Says(words, "field", 4) ==> words[3] in Runtime.FIELD_TYPES)
    && (Says(words, "group", 5) ==> ListsSpelled(words[5..], "req:"))
  }

  /** No two field lines share a tag or a name and no two message lines a type. */
  ghost predicate NothingTwice(doc: seq<Line>) {
    forall i, j :: 0 <= i < j < |doc| ==>
      && (Says(doc[i], "field", 4) && Says(doc[j], "field", 4) ==> !SameTag(doc[i][1], doc[j][1]) && doc[i][2] != doc[j][2])
      && (Says(doc[i], "message", 3) && Says(doc[j], "message", 3) ==> doc[i][1] != doc[j][1])
  }

  ghost predicate SameTag(a: string, b: string) {
    exists t: Tag :: IsTag(a, t) && IsTag(b, t)
  }

  lemma GenTakesTable(s: Gen.RawGen, words: Line, line: nat)
    requires words != []
    ensures Gen.GenFieldLine(s, words[1..], line).Good? <==> |words| >= 4 && SomeTag(words[1])
    ensures Gen.GenMessageLine(s, words[1..], line).Good? <==>
            |words| >= 3 && ListsSpelled(words[3..], "req:") && ListsSpelled(words[3..], "opt:")
  {
    hide ParseTag;
    hide ReadModifiers;
    hide ListsSpelled;
    hide SomeTag;
    hide Gen.GenValues;
    var args := words[1..];
    if |words| >= 2 { TagRead(words[1]); }
    if |words| >= 3 {
      assert args[2..] == words[3..];
      ReadModifiersExactly(words[3..]);
    }
  }

  lemma GenTakesLists(s: Gen.RawGen, words: Line, line: nat)
    requires words != []
    ensures Gen.GenGroupLine(s, words[1..], line).Good? <==>
            |words| >= 5 && SomeTag(words[1]) && SomeTag(words[3]) && SomeList(words[4])
    ensures Gen.GenComponentLine(s, words[1..], line).Good? <==> |words| >= 3 && SomeList(words[2])
  {
    hide ParseTag;
    hide MemberList;
    hide SomeTag;
    hide SomeList;
    if |words| >= 2 { TagRead(words[1]); }
    if |words| >= 3 { SomeListRead(words[2]); }
    if |words| >= 4 { TagRead(words[3]); }
    if |words| >= 5 { SomeListRead(words[4]); }
  }

  lemma GenTakesLine(s: Gen.RawGen, words: Line, line: nat)
    ensures Gen.GenLine(s, words, line).Good? <==> WellWritten(words)
  {
    if words != [] {
      hide DirectiveOf;
      hide ListsSpelled;
      hide AllTags;
      hide SomeTag;
      hide SomeList;
      hide Gen.AllNumeric;
      hide Gen.GenFieldLine;
      hide Gen.GenGroupLine;
      hide Gen.GenComponentLine;
      hide Gen.GenMessageLine;
      DirectiveExactly(words[0]);
      NumericIsTags(words[1..]);
      GenTakesTable(s, words, line);
      GenTakesLists(s, words, line);
    }
  }

  lemma SomeListRead(word: string)
    ensures MemberList(word).Good? <==> SomeList(word)
  {
    ListSpelled(word);
  }

  lemma NumericIsTags(words: seq<string>)
    ensures Gen.AllNumeric(words) <==> AllTags(words)
  {
    hide ParseTag;
    hide SomeTag;
    forall i | 0 <= i < |words| ensures ParseTag(words[i]).Some? <==> SomeTag(words[i]) { TagRead(words[i]); }
  }

  lemma RuntimeTakesLine(words: Line)
    ensures DualTrack.RuntimeLine(words) <==> FitForRuntime(words)
  {
    if words != [] {
      hide DirectiveOf;
      hide Runtime.ReadMeta;
      hide Runtime.ReadRequired;
      hide ListsSpelled;
      hide IsMeta;
      DirectiveExactly(words[0]);
      if |words| >= 5 { ReadRequiredExactly(words[5..]); }
      forall m ensures MetaAt(words) == Some(("version-meta", m)) <==> IsMeta(words, "version-meta", m) {
        MetaAtExactly(words, "version-meta", m);
      }
      var r := Runtime.ReadMeta(words[1..]);
      if words[0] == "version-meta" && r.major.Some? && r.minor.Some? {
        assert IsMeta(words, "version-meta", Version.Version(r.major.value, r.minor.value, r.sp, r.ep));
      }
    }
  }

  lemma ClashRead(a: Line, b: Line)
    requires WellWritten(a) && WellWritten(b)
    ensures DualTrack.FieldClash(a, b) <==>
            Says(a, "field", 4) && Says(b, "field", 4) && (SameTag(a[1], b[1]) || a[2] == b[2])
    ensures DualTrack.MessageClash(a, b) <==> Says(a, "message", 3) && Says(b, "message", 3) && a[1] == b[1]
  {
    hide DirectiveOf;
    hide ParseTag;
    hide IsTag;
    hide SomeList;
    hide AllTags;
    hide ListsSpelled;
    if a != [] { DirectiveExactly(a[0]); }
    if b != [] { DirectiveExactly(b[0]); }
    if |a| >= 2 { TagRead(a[1]); }
    if |b| >= 2 { TagRead(b[1]); }
  }

  lemma {:induction false} GenTakes(doc: seq<Line>)
    ensures Gen.GenLines(doc).Good? <==> forall i :: 0 <= i < |doc| ==> WellWritten(doc[i])
  {
    hide Gen.GenLine;
    hide WellWritten;
    if doc != [] {
      var init, words := doc[..|doc| - 1], doc[|doc| - 1];
      GenTakes(init);
      assert forall i :: 0 <= i < |init| ==> init[i] == doc[i];
      if Gen.GenLines(init).Good? { GenTakesLine(Gen.GenLines(init).value, words, |doc|); }
      else {
        var i :| 0 <= i < |init| && !WellWritten(init[i]);
        assert !WellWritten(doc[i]);
      }
    }
  }

  /** The lines the two readers take: for the build-time one each line by itself, for the runtime one also no tag, name
      or message type twice. */
  lemma RuntimeTakes(doc: seq<Line>)
    ensures Runtime.Lines(doc).Good? <==>
            (forall i :: 0 <= i < |doc| ==> WellWritten(doc[i]) && FitForRuntime(doc[i])) && NothingTwice(doc)
  {
    hide Runtime.Lines;
    hide Gen.GenLines;
    hide WellWritten;
    hide FitForRuntime;
    hide Says;
    hide SameTag;
    hide DualTrack.RuntimeLine;
    hide DualTrack.FieldClash;
    hide DualTrack.MessageClash;
    hide DualTrack.Matches;
    hide DualTrack.Recorded;
    DualTrack.LinesAgree(doc);
    GenTakes(doc);
    forall i | 0 <= i < |doc| ensures DualTrack.RuntimeLine(doc[i]) <==> FitForRuntime(doc[i]) { RuntimeTakesLine(doc[i]); }
    if forall i :: 0 <= i < |doc| ==> WellWritten(doc[i]) {
      NoClashIsNothingTwice(doc);
    }
  }

  lemma NoClashIsNothingTwice(doc: seq<Line>)
    requires forall i :: 0 <= i < |doc| ==> WellWritten(doc[i])
    ensures DualTrack.NoClash(doc) <==> NothingTwice(doc)
  {
    hide WellWritten;
    hide SameTag;
    hide DualTrack.FieldClash;
    hide DualTrack.MessageClash;
    forall i, j | 0 <= i < j < |doc|
      ensures DualTrack.FieldClash(doc[i], doc[j]) <==>
              Says(doc[i], "field", 4) && Says(doc[j], "field", 4) && (SameTag(doc[i][1], doc[j][1]) || doc[i][2] == doc[j][2])
      ensures DualTrack.MessageClash(doc[i], doc[j]) <==>
              Says(doc[i], "message", 3) && Says(doc[j], "message", 3) && doc[i][1] == doc[j][1]
    {
      ClashRead(doc[i], doc[j]);
    }
  }

  // ------------------------------------------------------------ which line a document is refused for

  /** What the rejection says of line `i`: its number, and that it is badly written, has an unknown type, or defines
      again what an earlier line defines. */
  ghost predicate RefusedFor(doc: seq<Line>, i: nat, e: Runtime.RuntimeError)
    requires i < |doc|
  {
    var words := doc[i];
    match e
    case Malformed(n) => n == i + 1 && (!WellWritten(words) || (!Says(words, "field", 4) && !FitForRuntime(words)))
    case UnknownType(n, w) =>
      n == i + 1 && Says(words, "field", 4) && SomeTag(words[1]) && w == words[3] && w !in Runtime.FIELD_TYPES
    case DuplicateTag(n, t) =>
      n == i + 1 && Says(words, "field", 4) && IsTag(words[1], t) && words[3] in Runtime.FIELD_TYPES
      && exists j :: 0 <= j < i && Says(doc[j], "field", 4) && IsTag(doc[j][1], t)
    case DuplicateName(n, name) =>
      n == i + 1 && Says(words, "field", 4) && words[2] == name && words[3] in Runtime.FIELD_TYPES
      && (forall j :: 0 <= j < i && Says(doc[j], "field", 4) ==> !SameTag(words[1], doc[j][1]))
      && exists j :: 0 <= j < i && Says(doc[j], "field", 4) && doc[j][2] == name
    case DuplicateMessage(n, k) =>
      n == i + 1 && Says(words, "message", 3) && WellWritten(words) && words[1] == k
      && exists j :: 0 <= j < i && Says(doc[j], "message", 3) && doc[j][1] == k
    case _ => false
  }

  lemma FieldRefused(s: Runtime.Raw, words: Line, line: nat)
    requires words != [] && words[0] == "field" && Runtime.StepField(s, words[1..], line).Bad?
    ensures match Runtime.StepField(s, words[1..], line).error
            case Malformed(n) => n == line && !WellWritten(words)
            case UnknownType(n, w) =>
              n == line && Says(words, "field", 4) && SomeTag(words[1]) && w == words[3] && w !in Runtime.FIELD_TYPES
            case DuplicateTag(n, t) =>
              n == line && Says(words, "field", 4) && IsTag(words[1], t) && words[3] in Runtime.FIELD_TYPES && t in s.fields
            case DuplicateName(n, name) =>
              n == line && Says(words, "field", 4) && words[2] == name && words[3] in Runtime.FIELD_TYPES && name in s.fieldByName
              && forall t: Tag :: IsTag(words[1], t) ==> t !in s.fields
            case _ => false
  {
    hide ParseTag;
    hide IsTag;
    hide AllTags;
    hide SomeTag;
    hide SomeList;
    hide ListsSpelled;
    hide DirectiveOf;
    hide Runtime.FieldOf;
    DirectiveExactly(words[0]);
    if |words| >= 2 { TagRead(words[1]); }
  }

  lemma MessageRefused(s: Runtime.Raw, words: Line, line: nat)
    requires words != [] && words[0] == "message" && Runtime.StepMessage(s, words[1..], line).Bad?
    ensures match Runtime.StepMessage(s, words[1..], line).error
            case Malformed(n) => n == line && !WellWritten(words)
            case DuplicateMessage(n, k) => n == line && Says(words, "message", 3) && WellWritten(words) && words[1] == k && k in s.messages
            case _ => false
  {
    hide ReadModifiers;
    hide AllTags;
    hide SomeTag;
    hide SomeList;
    hide ListsSpelled;
    hide DirectiveOf;
    DirectiveExactly(words[0]);
    var args := words[1..];
    if |words| >= 3 {
      assert args[2..] == words[3..];
      ReadModifiersExactly(words[3..]);
    }
  }

  lemma FieldDefined(doc: seq<Line>, t: Tag)
    requires Runtime.Lines(doc).Good? && t in Runtime.Lines(doc).value.fields
    ensures exists j :: 0 <= j < |doc| && IsField(doc[j], t, Runtime.Lines(doc).value.fields[t])
  {
    hide Runtime.Lines;
    hide IsField;
    hide IsMeta;
    hide IsMessage;
    hide IsGroup;
    hide IsComponent;
    hide ListsTag;
    hide IsVersion;
    RuntimeTables(doc);
    assert Has(Runtime.Lines(doc).value.fields, t, Runtime.Lines(doc).value.fields[t]);
  }

  lemma TagNotYet(doc: seq<Line>, j: nat, word: string)
    requires Runtime.Lines(doc).Good? && j < |doc| && Says(doc[j], "field", 4)
    requires forall t: Tag :: IsTag(word, t) ==> t !in Runtime.Lines(doc).value.fields
    ensures !SameTag(word, doc[j][1])
  {
    hide Runtime.Lines;
    hide IsTag;
    DualTrack.LinesAgree(doc);
    hide DualTrack.RuntimeLines;
    hide DualTrack.Matches;
    hide Gen.GenLines;
    DirectiveExactly(doc[j][0]);
    TagRead(doc[j][1]);
    assert DualTrack.Recorded(doc, Runtime.Lines(doc).value);
    forall t: Tag | IsTag(doc[j][1], t) ensures t in Runtime.Lines(doc).value.fields {
      assert DualTrack.DefinesField(doc[j]).Some? && DualTrack.DefinesField(doc[j]).value.0 == t;
    }
  }

  lemma NameDefined(doc: seq<Line>, name: string)
    requires Runtime.Lines(doc).Good? && name in Runtime.Lines(doc).value.fieldByName
    ensures exists j :: 0 <= j < |doc| && Says(doc[j], "field", 4) && doc[j][2] == name
  {
    hide Runtime.Lines;
    hide IsTag;
    hide IsEnum;
    RuntimeDictionary.LinesInverse(doc);
    var s := Runtime.Lines(doc).value;
    FieldDefined(doc, s.fieldByName[name]);
  }

  lemma MessageDefined(doc: seq<Line>, k: string)
    requires Runtime.Lines(doc).Good? && k in Runtime.Lines(doc).value.messages
    ensures exists j :: 0 <= j < |doc| && Says(doc[j], "message", 3) && doc[j][1] == k
  {
    hide Runtime.Lines;
    hide IsField;
    hide IsMeta;
    hide IsGroup;
    hide IsComponent;
    hide ListsTag;
    hide IsVersion;
    hide SpellsModifiers;
    RuntimeTables(doc);
    assert Has(Runtime.Lines(doc).value.messages, k, Runtime.Lines(doc).value.messages[k]);
  }

  lemma LineRefused(doc: seq<Line>, i: nat)
    requires i < |doc| && Runtime.Lines(doc[..i]).Good?
    requires Runtime.StepLine(Runtime.Lines(doc[..i]).value, doc[i], i + 1).Bad?
    ensures RefusedFor(doc, i, Runtime.StepLine(Runtime.Lines(doc[..i]).value, doc[i], i + 1).error)
  {
    hide Runtime.Lines;
    hide DirectiveOf;
    hide WellWritten;
    hide FitForRuntime;
    hide IsTag;
    hide IsEnum;
    hide Runtime.StepField;
    hide Runtime.StepMessage;
    hide Runtime.StepGroup;
    hide Runtime.StepComponent;
    hide Runtime.StepTags;
    hide Runtime.StepMeta;
    hide Runtime.StepVersion;
    var before, words := doc[..i], doc[i];
    var s := Runtime.Lines(before).value;
    var e := Runtime.StepLine(s, words, i + 1).error;
    DirectiveExactly(words[0]);
    assert forall j :: 0 <= j < i ==> before[j] == doc[j];
    match DirectiveOf(words[0])
    case FieldLine =>
      FieldRefused(s, words, i + 1);
      match e {
        case DuplicateTag(_, t) => FieldDefined(before, t);
        case DuplicateName(_, name) =>
          NameDefined(before, name);
          forall j | 0 <= j < i && Says(doc[j], "field", 4) ensures !SameTag(words[1], doc[j][1]) {
            TagNotYet(before, j, words[1]);
          }
        case _ =>
      }
    case MessageLine =>
      MessageRefused(s, words, i + 1);
      match e {
        case DuplicateMessage(_, k) => MessageDefined(before, k);
        case _ =>
      }
    case _ => OtherRefused(s, words, i + 1);
  }

  lemma OtherRefused(s: Runtime.Raw, words: Line, line: nat)
    requires words != [] && words[0] != "field" && words[0] != "message" && Runtime.StepLine(s, words, line).Bad?
    ensures Runtime.StepLine(s, words, line).error == Runtime.Malformed(line)
    ensures !WellWritten(words) || !FitForRuntime(words)
  {
    OthersSayMalformed(s, words, line);
    hide Runtime.StepLine;
    hide WellWritten;
    hide FitForRuntime;
    if WellWritten(words) && FitForRuntime(words) {
      TakenByRuntime(s, words, line);
      assert false;
    }
  }

  lemma OthersSayMalformed(s: Runtime.Raw, words: Line, line: nat)
    requires words != [] && words[0] != "field" && words[0] != "message" && Runtime.StepLine(s, words, line).Bad?
    ensures Runtime.StepLine(s, words, line).error == Runtime.Malformed(line)
  {
    hide DirectiveOf;
    hide ParseTag;
    hide MemberList;
    hide Runtime.ReadRequired;
    hide Runtime.ReadMeta;
    hide Runtime.ReadTags;
    hide Runtime.StepField;
    hide Runtime.StepMessage;
    DirectiveExactly(words[0]);
  }

  lemma TakenByRuntime(s: Runtime.Raw, words: Line, line: nat)
    requires words != [] && words[0] != "field" && words[0] != "message" && WellWritten(words) && FitForRuntime(words)
    ensures Runtime.StepLine(s, words, line).Good?
  {
    hide DirectiveOf;
    hide ParseTag;
    hide MemberList;
    hide Runtime.ReadRequired;
    hide Runtime.ReadMeta;
    hide Runtime.ReadTags;
    hide Runtime.StepField;
    hide Runtime.StepMessage;
    hide AllTags;
    hide SomeTag;
    hide SomeList;
    hide ListsSpelled;
    DirectiveExactly(words[0]);
    RuntimeTakesLine(words);
    ReadTagsExactly(words[1..]);
    if |words| >= 2 { TagRead(words[1]); }
    if |words| >= 3 { SomeListRead(words[2]); }
    if |words| >= 4 { TagRead(words[3]); }
    if |words| >= 5 {
      SomeListRead(words[4]);
      ReadRequiredExactly(words[5..]);
      assert words[1..][4..] == words[5..];
    }
  }

  /** A document is refused for its first bad line. */
  lemma {:induction false} RefusedLine(doc: seq<Line>) returns (i: nat)
    requires Runtime.Lines(doc).Bad?
    ensures i < |doc| && Runtime.Lines(doc[..i]).Good? && RefusedFor(doc, i, Runtime.Lines(doc).error)
  {
    hide Runtime.StepLine;
    var init := doc[..|doc| - 1];
    if Runtime.Lines(init).Bad? {
      i := RefusedLine(init);
      assert init[..i] == doc[..i];
      RefusedInLonger(init, doc, i, Runtime.Lines(doc).error);
    } else {
      i := |doc| - 1;
      LineRefused(doc, i);
    }
  }

  lemma RefusedInLonger(init: seq<Line>, doc: seq<Line>, i: nat, e: Runtime.RuntimeError)
    requires init <= doc && i < |init| && RefusedFor(init, i, e)
    ensures RefusedFor(doc, i, e)
  {
    hide WellWritten;
    hide FitForRuntime;
    hide IsTag;
    assert forall j :: 0 <= j < |init| ==> init[j] == doc[j];
  }

  /** The same for the build-time reader: the line's number, or the piece for which one of its lists is refused. */
  ghost predicate GenRefusedFor(words: Line, line: nat, e: Gen.CodegenError) {
    match e
    case Malformed(n) => n == line && !WellWritten(words) && !ListAtFault(words)
    case BadToken(w) =>
      || (GroupListAtFault(words) && RefusedAt(words[4], w))
      || (ComponentListAtFault(words) && RefusedAt(words[2], w))
      || (Says(words, "message", 3) && exists k :: 3 <= k < |words| && IsList(words[k]) && RefusedAt(words[k][4..], w))
    case Unresolved(_) => false
  }

  ghost predicate GroupListAtFault(words: Line) {
    Says(words, "group", 5) && SomeTag(words[1]) && SomeTag(words[3]) && !SomeList(words[4])
  }

  ghost predicate ComponentListAtFault(words: Line) {
    Says(words, "component", 3) && !SomeList(words[2])
  }

  /** Only a list is wrong with the line. */
  ghost predicate ListAtFault(words: Line) {
    || GroupListAtFault(words) || ComponentListAtFault(words)
    || (Says(words, "message", 3) && !(ListsSpelled(words[3..], "req:") && ListsSpelled(words[3..], "opt:")))
  }

  lemma GenTableRefused(s: Gen.RawGen, words: Line, line: nat)
    requires words != []
    ensures words[0] == "field" && Gen.GenFieldLine(s, words[1..], line).Bad? ==>
              Gen.GenFieldLine(s, words[1..], line).error == Gen.Malformed(line)
    ensures words[0] == "message" && Gen.GenMessageLine(s, words[1..], line).Bad? ==>
              if |words| < 3 then Gen.GenMessageLine(s, words[1..], line).error == Gen.Malformed(line)
              else GenRefusedFor(words, line, Gen.GenMessageLine(s, words[1..], line).error)
  {
    hide ParseTag;
    hide ReadModifiers;
    hide RefusedAt;
    hide Gen.GenValues;
    hide WellWritten;
    hide ListAtFault;
    hide GroupListAtFault;
    hide ComponentListAtFault;
    var args := words[1..];
    if |words| >= 3 {
      assert args[2..] == words[3..];
      if ReadModifiers(words[3..]).Bad? {
        var k := ReadModifiersRefuses(words[3..]);
        assert words[3..][k] == words[3 + k];
      }
    }
  }

  lemma GenListRefused(s: Gen.RawGen, words: Line, line: nat)
    requires words != []
    ensures words[0] == "group" && Gen.GenGroupLine(s, words[1..], line).Bad? ==>
              var e := Gen.GenGroupLine(s, words[1..], line).error;
              if GroupListAtFault(words) then e.BadToken? && RefusedAt(words[4], e.word) else e == Gen.Malformed(line)
    ensures words[0] == "component" && Gen.GenComponentLine(s, words[1..], line).Bad? ==>
              var e := Gen.GenComponentLine(s, words[1..], line).error;
              if ComponentListAtFault(words) then e.BadToken? && RefusedAt(words[2], e.word) else e == Gen.Malformed(line)
  {
    hide ParseTag;
    hide MemberList;
    hide SomeTag;
    hide SomeList;
    hide RefusedAt;
    if |words| >= 2 { TagRead(words[1]); }
    if |words| >= 3 {
      SomeListRead(words[2]);
      if MemberList(words[2]).Bad? { MemberListRefuses(words[2]); }
    }
    if |words| >= 4 { TagRead(words[3]); }
    if |words| >= 5 {
      SomeListRead(words[4]);
      if MemberList(words[4]).Bad? { MemberListRefuses(words[4]); }
    }
  }

  lemma GenLineRefused(s: Gen.RawGen, words: Line, line: nat)
    requires Gen.GenLine(s, words, line).Bad?
    ensures GenRefusedFor(words, line, Gen.GenLine(s, words, line).error)
  {
    GenTakesLine(s, words, line);
    hide WellWritten;
    hide DirectiveOf;
    hide RefusedAt;
    hide SomeTag;
    hide SomeList;
    hide ListsSpelled;
    hide Gen.AllNumeric;
    hide Gen.GenFieldLine;
    hide Gen.GenGroupLine;
    hide Gen.GenComponentLine;
    hide Gen.GenMessageLine;
    DirectiveExactly(words[0]);
    GenTableRefused(s, words, line);
    GenListRefused(s, words, line);
  }

  lemma {:induction false} GenRefusedLine(doc: seq<Line>) returns (i: nat)
    requires Gen.GenLines(doc).Bad?
    ensures i < |doc| && Gen.GenLines(doc[..i]).Good? && GenRefusedFor(doc[i], i + 1, Gen.GenLines(doc).error)
  {
    hide Gen.GenLine;
    hide GenRefusedFor;
    var init := doc[..|doc| - 1];
    if Gen.GenLines(init).Bad? {
      i := GenRefusedLine(init);
      assert init[..i] == doc[..i];
    } else {
      i := |doc| - 1;
      GenLineRefused(Gen.GenLines(init).value, doc[i], i + 1);
    }
  }
}
