/** A converted vendor dictionary as the runtime reader takes it in: the lines are written as words and read
    again (`truefix-dict/src/vendor_xml.rs:487-560`, `truefix-dict/src/parser.rs:69-373`). */
module VendorReading {
  import opened Decimal
  import opened FieldMaps
  import Dictionary
  import opened Graphs
  import opened Components
  import opened DictionaryLines
  import opened VendorXml
  import opened VendorGroups
  import Runtime = RuntimeTrack
  import opened RuntimeDictionary
  import GroupDelimiters

  // ------------------------------------------------------------ words

  function Digits(n: nat): string {
    seq(|PrintNat(n)|, i requires 0 <= i < |PrintNat(n)| => PrintNat(n)[i] as char)
  }

  function TokenWord(m: RawMember): string {
    match m
    case TagMember(t) => Digits(t)
    case ComponentRef(n) => "component:" + n
  }

  function Join(words: seq<string>): string {
    if words == [] then ""
    else if |words| == 1 then words[0]
    else words[0] + "," + Join(words[1..])
  }

  function TokenWords(ms: seq<RawMember>): seq<string> {
    seq(|ms|, i requires 0 <= i < |ms| => TokenWord(ms[i]))
  }

  /** A member list as a word, or no word at all. */
  function ListWord(ms: seq<RawMember>, prefix: string): seq<string> {
    if ms == [] then [] else [prefix + Join(TokenWords(ms))]
  }

  function GroupWords(l: GroupLine): Line {
    ["group", Digits(l.count), l.name, Digits(l.delimiter)] + ListWord(l.members, "") + ListWord(l.required, "req:")
  }

  function ComponentWords(c: (string, seq<RawMember>)): Line {
    ["component", c.0] + ListWord(c.1, "")
  }

  function MessageWords(m: VendorGroups.MessageLine): Line {
    ["message", m.msgType, m.name] + ListWord(m.required, "req:") + ListWord(m.optional, "opt:")
  }

  /** A tag fits its type and a name can stand in a list. */
  ghost predicate Writable(m: RawMember) {
    match m
    case TagMember(t) => t <= U32_MAX
    case ComponentRef(n) => ',' !in n
  }

  ghost predicate AllWritable(ms: seq<RawMember>) {
    forall i :: 0 <= i < |ms| ==> Writable(ms[i])
  }

  // ------------------------------------------------------------ writing and reading lists

  lemma DigitsRead(n: nat)
    requires n <= U32_MAX
    ensures ParseTag(Digits(n)) == Some(n)
    ensures |Digits(n)| > 0 && forall c :: c in Digits(n) ==> '0' <= c <= '9'
  {
    var b, s := PrintNat(n), Digits(n);
    forall i | 0 <= i < |s| ensures ByteOf(s[i]) == b[i] && '0' <= s[i] <= '9' {
      assert IsDigit(b[i]);
    }
    assert seq(|s|, i requires 0 <= i < |s| => ByteOf(s[i])) == b;
    ParseUnsignedPrint(n, U32_MAX);
  }

  lemma TokenReads(m: RawMember)
    requires Writable(m)
    ensures ReadMember(TokenWord(m)) == Some(m) && TokenWord(m) != [] && ',' !in TokenWord(m)
  {
    hide ParseTag;
    var word := TokenWord(m);
    match m
    case TagMember(t) =>
      hide Digits;
      DigitsRead(t);
      assert word[0] in word && "component:"[0] == 'c';
      assert !("component:" <= word);
    case ComponentRef(n) =>
      assert "component:" <= word && word[|"component:"|..] == n;
  }

  lemma {:induction false} SplitWord(word: string)
    requires ',' !in word
    ensures Split(word, ',') == [word]
  {
    if word != [] {
      SplitWord(word[1..]);
      assert [word[0]] + word[1..] == word;
    }
  }

  lemma {:induction false} SplitAtComma(word: string, rest: string)
    requires ',' !in word
    ensures Split(word + "," + rest, ',') == [word] + Split(rest, ',')
  {
    var s := word + "," + rest;
    if word == [] {
      assert s[0] == ',' && s[1..] == rest;
    } else {
      SplitAtComma(word[1..], rest);
      assert s[0] == word[0] && s[1..] == word[1..] + "," + rest;
      var tail := [word[1..]] + Split(rest, ',');
      assert tail[0] == word[1..] && tail[1..] == Split(rest, ',') && [word[0]] + word[1..] == word;
    }
  }

  lemma {:induction false} ListReads(ms: seq<RawMember>)
    requires ms != [] && AllWritable(ms)
    ensures MemberList(Join(TokenWords(ms))) == Good(ms)
  {
    hide ReadMember;
    hide TokenWord;
    var words := TokenWords(ms);
    TokenReads(ms[0]);
    if |ms| == 1 {
      SplitWord(words[0]);
      var pieces: seq<string> := [words[0]];
      assert pieces[1..] == [] && [ms[0]] + [] == ms;
      assert ReadPieces(pieces) == Good([ms[0]] + []);
    } else {
      assert words[1..] == TokenWords(ms[1..]);
      ListReads(ms[1..]);
      var rest := Join(words[1..]);
      SplitAtComma(words[0], rest);
      var pieces := [words[0]] + Split(rest, ',');
      assert pieces[0] == words[0] && pieces[1..] == Split(rest, ',');
      assert [ms[0]] + ms[1..] == ms;
    }
  }

  lemma RequiredReads(ms: seq<RawMember>)
    requires AllWritable(ms)
    ensures Runtime.ReadRequired(ListWord(ms, "req:")) == Good(ms)
  {
    hide MemberList;
    hide Join;
    if ms != [] {
      var list := Join(TokenWords(ms));
      var word := "req:" + list;
      ListReads(ms);
      assert "req:" <= word && word[|"req:"|..] == list;
      var words: seq<string> := [word];
      assert words[..0] == [];
    }
  }

  // ------------------------------------------------------------ reading lines

  lemma Directives()
    ensures DirectiveOf("group").GroupLine? && DirectiveOf("component").ComponentLine? && DirectiveOf("message").MessageLine?
  {
    assert "group"[0] == 'g' && "version"[0] == 'v' && "field"[0] == 'f' && "header"[0] == 'h' && "trailer"[0] == 't';
    assert "message"[0] == 'm' && "component"[0] == 'c' && "version-meta"[0] == 'v';
  }

  /** A group line is what the reader needs: it is refused without members, and else read as it was written. */
  lemma GroupLineReads(s: Runtime.Raw, l: GroupLine, line: nat)
    requires l.count <= U32_MAX && l.delimiter <= U32_MAX && AllWritable(l.members) && AllWritable(l.required)
    requires l.members == [] ==> l.required == []
    ensures Runtime.StepLine(s, GroupWords(l), line) ==
            if l.members == [] then Bad(Runtime.Malformed(line))
            else Good(s.(groups := s.groups[l.count := Runtime.RawGroup(l.delimiter, l.members, l.required)]))
  {
    hide MemberList;
    hide Join;
    hide ParseTag;
    hide Digits;
    hide DirectiveOf;
    Directives();
    DigitsRead(l.count);
    DigitsRead(l.delimiter);
    var args := GroupWords(l)[1..];
    assert args[0] == Digits(l.count) && args[1] == l.name && args[2] == Digits(l.delimiter);
    if l.members != [] {
      ListReads(l.members);
      RequiredReads(l.required);
      assert "" + Join(TokenWords(l.members)) == Join(TokenWords(l.members));
      assert args[3] == Join(TokenWords(l.members)) && args[4..] == ListWord(l.required, "req:");
    }
  }

  /** A component line with nothing in it is refused, and else read as it was written. */
  lemma ComponentLineReads(s: Runtime.Raw, c: (string, seq<RawMember>), line: nat)
    requires AllWritable(c.1)
    ensures Runtime.StepLine(s, ComponentWords(c), line) ==
            if c.1 == [] then Bad(Runtime.Malformed(line)) else Good(s.(components := s.components[c.0 := c.1]))
  {
    hide MemberList;
    hide Join;
    hide DirectiveOf;
    Directives();
    var args := ComponentWords(c)[1..];
    assert args[0] == c.0;
    if c.1 != [] {
      ListReads(c.1);
      assert "" + Join(TokenWords(c.1)) == Join(TokenWords(c.1));
      assert args[1] == Join(TokenWords(c.1));
    }
  }

  /** The line defines no group and no component. */
  predicate Elsewhere(words: Line) {
    words == [] || (!DirectiveOf(words[0]).GroupLine? && !DirectiveOf(words[0]).ComponentLine?)
  }

  lemma ElsewhereKeeps(s: Runtime.Raw, words: Line, line: nat)
    requires Elsewhere(words) && Runtime.StepLine(s, words, line).Good?
    ensures var t := Runtime.StepLine(s, words, line).value; t.groups == s.groups && t.components == s.components
  {
    hide DirectiveOf;
    hide ParseTag;
    hide ReadModifiers;
    hide Runtime.KnownType;
    hide Runtime.FieldOf;
    hide Runtime.ReadTags;
    hide Runtime.ReadMeta;
    hide Runtime.StepGroup;
    hide Runtime.StepComponent;
    if words != [] {
      match DirectiveOf(words[0])
      case FieldLine =>
      case MessageLine =>
      case MetaLine =>
      case HeaderLine =>
      case TrailerLine =>
      case _ =>
    }
  }

  lemma LinesSnoc(doc: seq<Line>, words: Line)
    ensures Runtime.Lines(doc + [words]).Good? ==> Runtime.Lines(doc).Good?
    ensures Runtime.Lines(doc).Good? ==>
            Runtime.Lines(doc + [words]) == Runtime.StepLine(Runtime.Lines(doc).value, words, |doc| + 1)
  {
    hide Runtime.StepLine;
    assert (doc + [words])[..|doc|] == doc;
  }

  ghost predicate AllElsewhere(lines: seq<Line>) {
    forall i :: 0 <= i < |lines| ==> Elsewhere(lines[i])
  }

  /** Lines about other things, wherever they stand, leave groups and components alone. */
  lemma {:induction false} ElsewhereRun(doc: seq<Line>, more: seq<Line>)
    requires AllElsewhere(more) && Runtime.Lines(doc + more).Good?
    ensures Runtime.Lines(doc).Good?
    ensures var s, t := Runtime.Lines(doc).value, Runtime.Lines(doc + more).value;
            t.groups == s.groups && t.components == s.components
    decreases |more|
  {
    hide Runtime.StepLine;
    hide Runtime.Lines;
    hide Elsewhere;
    if more == [] {
      assert doc + more == doc;
    } else {
      var init, last := more[..|more| - 1], more[|more| - 1];
      assert doc + more == (doc + init) + [last];
      LinesSnoc(doc + init, last);
      ElsewhereRun(doc, init);
      ElsewhereKeeps(Runtime.Lines(doc + init).value, last, |doc + init| + 1);
    }
  }

  // ------------------------------------------------------------ reading what was rendered

  function GroupDocs(ls: seq<GroupLine>): seq<Line> {
    seq(|ls|, i requires 0 <= i < |ls| => GroupWords(ls[i]))
  }

  function ComponentDocs(cs: seq<(string, seq<RawMember>)>): seq<Line> {
    seq(|cs|, i requires 0 <= i < |cs| => ComponentWords(cs[i]))
  }

  function MessageDocs(ms: seq<VendorGroups.MessageLine>): seq<Line> {
    seq(|ms|, i requires 0 <= i < |ms| => MessageWords(ms[i]))
  }

  ghost predicate WritableLine(l: GroupLine) {
    && l.count <= U32_MAX && l.delimiter <= U32_MAX && AllWritable(l.members) && AllWritable(l.required)
    && (l.members == [] ==> l.required == [])
  }

  /** The groups read from a list of lines, each count tag under its last line. */
  ghost predicate GroupsRead(ls: seq<GroupLine>, groups: map<Tag, Runtime.RawGroup>) {
    && (forall i :: 0 <= i < |ls| ==> ls[i].members != [] && ls[i].count in groups)
    && (forall c :: c in groups ==>
          exists i :: 0 <= i < |ls| && ls[i].count == c && groups[c] == Runtime.RawGroup(ls[i].delimiter, ls[i].members, ls[i].required))
  }

  lemma GroupsReadSnoc(ls: seq<GroupLine>, groups: map<Tag, Runtime.RawGroup>, l: GroupLine)
    requires GroupsRead(ls, groups) && l.members != []
    ensures GroupsRead(ls + [l], groups[l.count := Runtime.RawGroup(l.delimiter, l.members, l.required)])
  {
    var more, after := ls + [l], groups[l.count := Runtime.RawGroup(l.delimiter, l.members, l.required)];
    assert more[|ls|] == l;
    forall c | c in after
      ensures exists i :: 0 <= i < |more| && more[i].count == c && after[c] == Runtime.RawGroup(more[i].delimiter, more[i].members, more[i].required)
    {
      if c != l.count {
        var i :| 0 <= i < |ls| && ls[i].count == c && groups[c] == Runtime.RawGroup(ls[i].delimiter, ls[i].members, ls[i].required);
        assert more[i] == ls[i];
      }
    }
  }

  lemma {:induction false} GroupsRun(doc: seq<Line>, ls: seq<GroupLine>)
    requires Runtime.Lines(doc + GroupDocs(ls)).Good?
    requires forall i :: 0 <= i < |ls| ==> WritableLine(ls[i])
    ensures Runtime.Lines(doc).Good?
    ensures var s, t := Runtime.Lines(doc).value, Runtime.Lines(doc + GroupDocs(ls)).value;
            && t.components == s.components
            && (s.groups == map[] ==> GroupsRead(ls, t.groups))
    decreases |ls|
  {
    hide Runtime.StepLine;
    hide Runtime.Lines;
    hide GroupWords;
    hide GroupsRead;
    if ls == [] {
      assert doc + GroupDocs(ls) == doc;
      assert GroupsRead([], map[]) by { NoGroupsRead(); }
    } else {
      var init, last := ls[..|ls| - 1], ls[|ls| - 1];
      var before := doc + GroupDocs(init);
      assert doc + GroupDocs(ls) == before + [GroupWords(last)];
      LinesSnoc(before, GroupWords(last));
      GroupsRun(doc, init);
      GroupLineReads(Runtime.Lines(before).value, last, |before| + 1);
      if Runtime.Lines(doc).value.groups == map[] {
        GroupsReadSnoc(init, Runtime.Lines(before).value.groups, last);
        assert init + [last] == ls;
      }
    }
  }

  lemma NoGroupsRead()
    ensures GroupsRead([], map[])
  {
  }

  /** Component lines as a table, the later of two of one name standing. */
  function ReadBack(lines: seq<(string, seq<RawMember>)>): RawComponents {
    if lines == [] then map[] else ReadBack(lines[..|lines| - 1])[lines[|lines| - 1].0 := lines[|lines| - 1].1]
  }

  /** Component lines are read to that table, and if all of them are read none is empty. */
  lemma {:induction false} ComponentsRun(doc: seq<Line>, cs: seq<(string, seq<RawMember>)>)
    requires Runtime.Lines(doc + ComponentDocs(cs)).Good?
    requires forall i :: 0 <= i < |cs| ==> AllWritable(cs[i].1)
    ensures Runtime.Lines(doc).Good? && forall i :: 0 <= i < |cs| ==> cs[i].1 != []
    ensures var s, t := Runtime.Lines(doc).value, Runtime.Lines(doc + ComponentDocs(cs)).value;
            t.groups == s.groups && (s.components == map[] ==> t.components == ReadBack(cs))
    decreases |cs|
  {
    hide Runtime.StepLine;
    hide Runtime.Lines;
    hide ComponentWords;
    hide AllWritable;
    if cs == [] {
      assert doc + ComponentDocs(cs) == doc;
    } else {
      var init, last := cs[..|cs| - 1], cs[|cs| - 1];
      var before := doc + ComponentDocs(init);
      assert doc + ComponentDocs(cs) == before + [ComponentWords(last)];
      LinesSnoc(before, ComponentWords(last));
      ComponentsRun(doc, init);
      ComponentLineReads(Runtime.Lines(before).value, last, |before| + 1);
    }
  }

  lemma MessagesElsewhere(ms: seq<VendorGroups.MessageLine>)
    ensures AllElsewhere(MessageDocs(ms))
  {
    hide DirectiveOf;
    Directives();
    forall i | 0 <= i < |ms| ensures Elsewhere(MessageDocs(ms)[i]) {
      assert MessageDocs(ms)[i][0] == "message";
    }
  }

  /** The document: version, field, header and trailer lines, then the groups, components and messages. */
  function Written(first: seq<Line>, r: Rendered): seq<Line> {
    ((first + GroupDocs(r.groups)) + ComponentDocs(r.components)) + MessageDocs(r.messages)
  }

  /** All that is written can be read as it stands. */
  ghost predicate WritableRendered(r: Rendered) {
    && (forall i :: 0 <= i < |r.groups| ==> WritableLine(r.groups[i]))
    && (forall i :: 0 <= i < |r.components| ==> AllWritable(r.components[i].1))
  }

  /** If the lines are accepted one by one, no component and no group is empty, and the groups and components
      read are those written. */
  lemma WrittenReads(first: seq<Line>, r: Rendered)
    requires AllElsewhere(first) && WritableRendered(r) && Runtime.Lines(Written(first, r)).Good?
    ensures forall i :: 0 <= i < |r.components| ==> r.components[i].1 != []
    ensures var s := Runtime.Lines(Written(first, r)).value;
            s.components == ReadBack(r.components) && GroupsRead(r.groups, s.groups)
  {
    hide Runtime.Lines;
    hide GroupsRead;
    hide WritableLine;
    hide AllWritable;
    hide ReadBack;
    var a, b := first + GroupDocs(r.groups), (first + GroupDocs(r.groups)) + ComponentDocs(r.components);
    MessagesElsewhere(r.messages);
    ElsewhereRun(b, MessageDocs(r.messages));
    ComponentsRun(a, r.components);
    GroupsRun(first, r.groups);
    assert [] + first == first;
    ElsewhereRun([], first);
    assert Runtime.Lines([]) == Good(Runtime.EMPTY) by { NoLines(); }
  }

  lemma NoLines()
    ensures Runtime.Lines([]) == Good(Runtime.EMPTY)
  {
  }

  // ------------------------------------------------------------ what a conversion writes can be read

  /** Tags fit their type and component names can stand in a list. */
  ghost predicate WordNames(v: Vendor) {
    && (forall n :: n in v.fieldByName ==> v.fieldByName[n] <= U32_MAX)
    && (forall i :: 0 <= i < |v.components| ==> ',' !in v.components[i].0)
  }

  lemma {:induction false} TableNames(components: seq<(string, seq<Entry>)>, n: string)
    requires (forall i :: 0 <= i < |components| ==> ',' !in components[i].0) && n in ByName(components)
    ensures ',' !in n
  {
    if n != components[|components| - 1].0 {
      TableNames(components[..|components| - 1], n);
    }
  }

  lemma TokensWritable(v: Vendor, es: seq<Entry>)
    requires WordNames(v) && AllKnown(v.fieldByName, ByName(v.components), es)
    ensures AllWritable(Tokens(v.fieldByName, es))
  {
    hide ByName;
    forall i | 0 <= i < |es| ensures Writable(Token(v.fieldByName, es[i])) {
      assert Known(v.fieldByName, ByName(v.components), es[i]);
      if es[i].kind.Reference? {
        TableNames(v.components, es[i].kind.name);
      }
    }
  }

  lemma {:induction false} FirstTagFits(fields: map<string, Tag>, table: Table, members: seq<Entry>, path: set<string>)
    requires path <= table.Keys && forall n :: n in fields ==> fields[n] <= U32_MAX
    ensures var r := FirstTag(fields, table, members, path); r.Ok? && r.value.Some? ==> r.value.value <= U32_MAX
    decreases table.Keys - path
  {
    if members != [] && members[0].kind.Reference? {
      var n := members[0].kind.name;
      if n in table && n !in path {
        FirstTagFits(fields, table, table[n], path + {n});
      }
    }
  }

  lemma {:induction false} RequiredKnown(fields: map<string, Tag>, table: Table, es: seq<Entry>)
    requires AllKnown(fields, table, es)
    ensures AllKnown(fields, table, RequiredOnly(es))
  {
    hide Known;
    if es != [] {
      assert AllKnown(fields, table, es[..|es| - 1]);
      RequiredKnown(fields, table, es[..|es| - 1]);
    }
  }

  lemma LineWritable(v: Vendor, line: GroupLine, g: VendorGroup)
    requires WordNames(v) && LineFor(v.fieldByName, ByName(v.components), line, g)
    ensures WritableLine(line)
  {
    hide ByName;
    hide FirstTag;
    hide AllWritable;
    hide AllKnown;
    TokensWritable(v, g.members);
    RequiredKnown(v.fieldByName, ByName(v.components), g.members);
    TokensWritable(v, RequiredOnly(g.members));
    FirstTagFits(v.fieldByName, ByName(v.components), g.members, {});
  }

  lemma RenderedWritable(v: Vendor, r: Rendered)
    requires WordNames(v) && WellRendered(v, r)
    ensures WritableRendered(r)
  {
    hide ByName;
    hide LineFor;
    hide WritableLine;
    hide AllWritable;
    hide AllKnown;
    hide Tokens;
    hide Covered;
    hide MessageWritten;
    var fields, table := v.fieldByName, ByName(v.components);
    forall i | 0 <= i < |r.groups| ensures WritableLine(r.groups[i]) {
      assert Grounded(fields, table, r.groups[i], Counts(r.groups));
      var g :| LineFor(fields, table, r.groups[i], g) && Covered(fields, g.members, Counts(r.groups));
      LineWritable(v, r.groups[i], g);
    }
    forall i | 0 <= i < |r.components| ensures AllWritable(r.components[i].1) {
      assert ComponentWritten(fields, table, Counts(r.groups), v.components[i], r.components[i]);
      TokensWritable(v, v.components[i].1);
    }
  }

  // ------------------------------------------------------------ delimiters come first

  lemma {:induction false} ReadBackIsRaw(fields: map<string, Tag>, components: seq<(string, seq<Entry>)>, lines: seq<(string, seq<RawMember>)>)
    requires |lines| == |components|
    requires forall i :: 0 <= i < |lines| ==> lines[i] == (components[i].0, Tokens(fields, components[i].1))
    ensures ReadBack(lines) == RawOf(fields, ByName(components))
    decreases |lines|
  {
    hide Tokens;
    if lines != [] {
      ReadBackIsRaw(fields, components[..|components| - 1], lines[..|lines| - 1]);
    }
  }

  lemma {:induction false} TableKnown(fields: map<string, Tag>, table: Table, components: seq<(string, seq<Entry>)>, n: string)
    requires forall i :: 0 <= i < |components| ==> AllKnown(fields, table, components[i].1) && components[i].1 != []
    requires n in ByName(components)
    ensures AllKnown(fields, table, ByName(components)[n]) && ByName(components)[n] != []
  {
    hide AllKnown;
    var last := components[|components| - 1];
    if n != last.0 {
      TableKnown(fields, table, components[..|components| - 1], n);
    }
  }

  /** For every document the runtime reader accepts, one made by the vendor conversion gives a dictionary in which
      each group's delimiter is its first member, the condition of `GroupDelimiters.DelimitersExactly`. */
  lemma RenderedDelimiters(v: Vendor, r: Rendered, first: seq<Line>, d: Dictionary.Dict)
    requires WordNames(v) && WellRendered(v, r) && AllElsewhere(first)
    requires Accepts(Written(first, r)) && IsCompiled(Runtime.Lines(Written(first, r)).value, d)
    ensures GroupDelimiters.DelimitersLead(d.groups)
  {
    hide Runtime.Lines;
    hide LineFor;
    hide MessageWritten;
    hide AllKnown;
    hide Tokens;
    hide WritableRendered;
    hide MessageCompiled;
    hide Compiles;
    hide IsResolution;
    hide ExpandsMembers;
    hide ChildOf;
    var fields, components := v.fieldByName, ByName(v.components);
    RenderedWritable(v, r);
    WrittenReads(first, r);
    var s := Runtime.Lines(Written(first, r)).value;
    ReadBackIsRaw(fields, v.components, r.components);
    TokensEmpty(fields, v, r);
    forall n | n in components ensures AllKnown(fields, components, components[n]) && components[n] != [] {
      TableKnown(fields, components, v.components, n);
    }
    forall c | c in d.groups ensures d.groups[c].members != [] && d.groups[c].members[0] == d.groups[c].delimiter {
      var i :| 0 <= i < |r.groups| && r.groups[i].count == c
               && s.groups[c] == Runtime.RawGroup(r.groups[i].delimiter, r.groups[i].members, r.groups[i].required);
      assert GroupCompiled(s, ShapesOf(d.groups), c, d.groups[c]);
      assert Grounded(fields, components, r.groups[i], Counts(r.groups));
      var g :| LineFor(fields, components, r.groups[i], g) && Covered(fields, g.members, Counts(r.groups));
      DelimiterIsHead(fields, components, r.groups[i], g, d.groups[c].members);
    }
  }

  /** A conversion of a document with an empty component is refused on reading. */
  lemma EmptyComponentRefused(v: Vendor, r: Rendered, first: seq<Line>, i: nat)
    requires WordNames(v) && WellRendered(v, r) && AllElsewhere(first) && i < |v.components| && v.components[i].1 == []
    ensures Runtime.Lines(Written(first, r)).Bad?
  {
    hide Runtime.Lines;
    hide AllKnown;
    hide Tokens;
    RenderedWritable(v, r);
    if Runtime.Lines(Written(first, r)).Good? {
      WrittenReads(first, r);
      TokensEmpty(v.fieldByName, v, r);
    }
  }

  lemma TokensEmpty(fields: map<string, Tag>, v: Vendor, r: Rendered)
    requires WellRendered(v, r) && fields == v.fieldByName && forall i :: 0 <= i < |r.components| ==> r.components[i].1 != []
    ensures forall i :: 0 <= i < |v.components| ==> v.components[i].1 != []
    ensures forall i :: 0 <= i < |v.components| ==> r.components[i] == (v.components[i].0, Tokens(fields, v.components[i].1))
    ensures forall i :: 0 <= i < |v.components| ==> AllKnown(fields, ByName(v.components), v.components[i].1)
  {
    hide AllKnown;
    hide MessageWritten;
    hide Grounded;
    forall i | 0 <= i < |v.components|
      ensures v.components[i].1 != [] && r.components[i] == (v.components[i].0, Tokens(fields, v.components[i].1))
              && AllKnown(fields, ByName(v.components), v.components[i].1)
    {
      assert ComponentWritten(fields, ByName(v.components), Counts(r.groups), v.components[i], r.components[i]);
    }
  }
}
