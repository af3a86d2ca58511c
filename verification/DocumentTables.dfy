/** What the two dictionary readers collect from a document, said of its lines: which documents each takes, and what
    stands in each table, line by line. */
module DocumentTables {
  import opened Decimal
  import opened FieldMaps
  import opened Dictionary
  import opened Components
  import opened DictionaryLines
  import opened DictionaryWords
  import Runtime = RuntimeTrack
  import Gen = CodegenTrack

  // ------------------------------------------------------------ tables filled line by line

  ghost predicate Has<K, V>(m: map<K, V>, k: K, v: V) {
    k in m && m[k] == v
  }

  lemma SameTable<K(!new), V(!new)>(a: map<K, V>, b: map<K, V>)
    requires forall k, v :: Has(a, k, v) <==> Has(b, k, v)
    ensures a == b
  {
    forall k | k in a ensures k in b && b[k] == a[k] { assert Has(a, k, a[k]); }
    forall k | k in b ensures k in a { assert Has(b, k, b[k]); }
  }

  /** The entries of all lines, a later line replacing an earlier one's of the same key. */
  ghost function Table<K, V>(doc: seq<Line>, at: Line -> Option<(K, V)>): (m: map<K, V>) {
    if doc == [] then map[]
    else Entered(Table(doc[..|doc| - 1], at), at(doc[|doc| - 1]))
  }

  ghost function Entered<K, V>(m: map<K, V>, entry: Option<(K, V)>): (r: map<K, V>) {
    match entry case None => m case Some(p) => m[p.0 := p.1]
  }

  /** Line `i` is the last with an entry for `k`, and enters `v`. */
  ghost predicate LastEntry<K(!new), V(!new)>(doc: seq<Line>, at: Line -> Option<(K, V)>, i: nat, k: K, v: V) {
    && i < |doc| && at(doc[i]) == Some((k, v))
    && forall j :: i < j < |doc| && at(doc[j]).Some? ==> at(doc[j]).value.0 != k
  }

  lemma {:induction false} TableExactly<K(!new), V(!new)>(doc: seq<Line>, at: Line -> Option<(K, V)>, k: K, v: V)
    ensures Has(Table(doc, at), k, v) <==> exists i: nat :: LastEntry(doc, at, i, k, v)
  {
    if doc != [] {
      var init, last := doc[..|doc| - 1], |doc| - 1;
      TableExactly(init, at, k, v);
      var entry := at(doc[last]);
      if entry.Some? && entry.value.0 == k {
        if entry.value.1 == v { assert LastEntry(doc, at, last, k, v); }
        forall i: nat | LastEntry(doc, at, i, k, v) ensures i == last { }
      } else {
        forall i: nat ensures LastEntry(doc, at, i, k, v) <==> LastEntry(init, at, i, k, v) {
          if i < last { assert init[i] == doc[i]; }
          if LastEntry(init, at, i, k, v) {
            forall j | i < j < |doc| && at(doc[j]).Some? ensures at(doc[j]).value.0 != k {
              if j < last { assert init[j] == doc[j]; }
            }
          }
        }
      }
    }
  }

  /** What all lines together contribute. */
  ghost function Union(doc: seq<Line>, of: Line -> set<Tag>): (s: set<Tag>) {
    if doc == [] then {} else Union(doc[..|doc| - 1], of) + of(doc[|doc| - 1])
  }

  lemma {:induction false} UnionExactly(doc: seq<Line>, of: Line -> set<Tag>, t: Tag)
    ensures t in Union(doc, of) <==> exists i :: 0 <= i < |doc| && t in of(doc[i])
  {
    if doc != [] {
      var init := doc[..|doc| - 1];
      UnionExactly(init, of, t);
      assert forall i :: 0 <= i < |init| ==> init[i] == doc[i];
    }
  }

  // ------------------------------------------------------------ what single lines say

  ghost predicate Says(words: Line, directive: string, least: nat) {
    |words| >= least > 0 && words[0] == directive
  }

  /** An enumerated value, perhaps with a label. */
  ghost predicate IsValue(word: string, value: string, mark: Option<string>) {
    match mark
    case None => word == value && '=' !in word
    case Some(l) => word == value + "=" + l && '=' !in value
  }

  ghost predicate Values(word: string, value: string) {
    exists mark :: IsValue(word, value, mark)
  }

  ghost predicate IsEnum(words: seq<string>, values: seq<string>, labels: map<string, string>) {
    && |values| == |words|
    && (forall i :: 0 <= i < |words| ==> Values(words[i], values[i]))
    && (forall v, l :: Has(labels, v, l) <==> exists i :: 0 <= i < |words| && LastLabel(words, i, v, l))
  }

  ghost predicate LastLabel(words: seq<string>, i: nat, v: string, l: string)
    requires i < |words|
  {
    IsValue(words[i], v, Some(l)) && forall j :: i < j < |words| ==> !exists l' :: IsValue(words[j], v, Some(l'))
  }

  /** `field <tag> <name> <type> [open] <value>[=<label>]...` */
  ghost predicate IsField(words: Line, t: Tag, def: FieldDef) {
    && Says(words, "field", 4) && IsTag(words[1], t) && def.tag == t && words[2] == def.name && words[3] == def.fieldType
    && (def.openEnum <==> |words| > 4 && words[4] == "open")
    && IsEnum(if def.openEnum then words[5..] else words[4..], def.values, def.labels)
  }

  /** `message <type> <name> [ordered] [req:<list>] [opt:<list>]`, these in any order. */
  ghost predicate IsMessage(words: Line, k: string, m: Runtime.RawMessage) {
    Says(words, "message", 3) && words[1] == k && words[2] == m.name
    && SpellsModifiers(words[3..], Modifiers(m.required, m.optional, m.ordered))
  }

  /** `group <count tag> <name> <delimiter> <list> [req:<list>]` */
  ghost predicate IsGroup(words: Line, c: Tag, g: Runtime.RawGroup) {
    && Says(words, "group", 5) && IsTag(words[1], c) && IsTag(words[3], g.delimiter) && SpellsList(words[4], g.members)
    && ListsSpelled(words[5..], "req:") && LastList(words[5..], "req:", g.required)
  }

  /** `component <name> <list>` */
  ghost predicate IsComponent(words: Line, n: string, ms: seq<RawMember>) {
    Says(words, "component", 3) && words[1] == n && SpellsList(words[2], ms)
  }

  /** `header <tag>...` or `trailer <tag>...` */
  ghost predicate ListsTag(words: Line, directive: string, t: Tag) {
    Says(words, directive, 1) && exists i :: 1 <= i < |words| && IsTag(words[i], t)
  }

  /** `version <name>` */
  ghost predicate IsVersion(words: Line, key: string, name: string) {
    Says(words, "version", 2) && key == "version" && words[1] == name
  }

  /** The number after the last word with the prefix, if there is such a word and it is a number below 256. */
  ghost predicate LastNumber(words: seq<string>, prefix: string, x: Option<nat>) {
    || (exists i :: 0 <= i < |words| && LastWith(words, prefix, i) && Numbers(words[i][|prefix|..], x))
    || (x.None? && forall i :: 0 <= i < |words| ==> !(prefix <= words[i]))
  }

  ghost predicate Numbers(word: string, x: Option<nat>) {
    match x
    case Some(n) => n <= 255 && IsNumber(word, n)
    case None => forall n: nat :: n <= 255 ==> !IsNumber(word, n)
  }

  /** `version-meta major=<n> minor=<n> [sp=<n>] [ep=<n>]`, in any order. */
  ghost predicate IsMeta(words: Line, key: string, m: Version) {
    && Says(words, "version-meta", 1) && key == "version-meta"
    && LastNumber(words[1..], "major=", Some(m.major)) && LastNumber(words[1..], "minor=", Some(m.minor))
    && LastNumber(words[1..], "sp=", m.servicePack) && LastNumber(words[1..], "ep=", m.extensionPack)
  }

  // ------------------------------------------------------------ the same for the build-time reader

  ghost predicate IsGenField(words: Line, t: Tag, f: Gen.GenField) {
    && Says(words, "field", 4) && IsTag(words[1], t) && words[2] == f.name && words[3] == f.typeWord
    && var values := if |words| > 4 && words[4] == "open" then words[5..] else words[4..];
    && |f.values| == |values| && forall i :: 0 <= i < |values| ==> IsValue(values[i], f.values[i].0, f.values[i].1)
  }

  ghost predicate IsGenGroup(words: Line, c: Tag, g: Gen.RawGenGroup) {
    Says(words, "group", 5) && IsTag(words[1], c) && words[2] == g.name && IsTag(words[3], g.delimiter) && SpellsList(words[4], g.members)
  }

  ghost predicate IsGenMessage(words: Line, m: Gen.RawGenMessage) {
    Says(words, "message", 3) && words[1] == m.msgType && words[2] == m.name
    && SpellsModifiers(words[3..], Modifiers(m.required, m.optional, m.ordered))
  }

  // ------------------------------------------------------------ the same as functions

  function FieldAt(words: Line): (r: Option<(Tag, FieldDef)>) {
    if |words| >= 4 && words[0] == "field" && ParseTag(words[1]).Some?
    then Some((ParseTag(words[1]).value, Runtime.FieldOf(words[1..], ParseTag(words[1]).value)))
    else None
  }

  function MessageAt(words: Line): (r: Option<(string, Runtime.RawMessage)>) {
    if |words| >= 3 && words[0] == "message" && ReadModifiers(words[3..]).Good?
    then var m := ReadModifiers(words[3..]).value;
         Some((words[1], Runtime.RawMessage(words[2], m.required, m.optional, m.ordered)))
    else None
  }

  function GroupAt(words: Line): (r: Option<(Tag, Runtime.RawGroup)>) {
    if |words| >= 5 && words[0] == "group" && ParseTag(words[1]).Some? && ParseTag(words[3]).Some?
       && MemberList(words[4]).Good? && Runtime.ReadRequired(words[5..]).Good?
    then Some((ParseTag(words[1]).value,
               Runtime.RawGroup(ParseTag(words[3]).value, MemberList(words[4]).value, Runtime.ReadRequired(words[5..]).value)))
    else None
  }

  function ComponentAt(words: Line): (r: Option<(string, seq<RawMember>)>) {
    if |words| >= 3 && words[0] == "component" && MemberList(words[2]).Good?
    then Some((words[1], MemberList(words[2]).value))
    else None
  }

  function TagsAt(words: Line, directive: string): (s: set<Tag>) {
    if |words| >= 1 && words[0] == directive
    then set i | 1 <= i < |words| && ParseTag(words[i]).Some? :: ParseTag(words[i]).value
    else {}
  }

  function VersionAt(words: Line): (r: Option<(string, string)>) {
    if |words| >= 2 && words[0] == "version" then Some((words[0], words[1])) else None
  }

  function MetaAt(words: Line): (r: Option<(string, Version)>) {
    if |words| >= 1 && words[0] == "version-meta" then
      var m := Runtime.ReadMeta(words[1..]);
      if m.major.Some? && m.minor.Some?
      then Some((words[0], Version.Version(m.major.value, m.minor.value, m.sp, m.ep))) else None
    else None
  }

  function GenFieldAt(words: Line): (r: Option<(Tag, Gen.GenField)>) {
    if |words| >= 4 && words[0] == "field" && ParseTag(words[1]).Some?
    then Some((ParseTag(words[1]).value, Gen.GenField(words[2], words[3], Gen.GenValues(Gen.WithoutOpen(words[4..])))))
    else None
  }

  function GenGroupAt(words: Line): (r: Option<(Tag, Gen.RawGenGroup)>) {
    if |words| >= 5 && words[0] == "group" && ParseTag(words[1]).Some? && ParseTag(words[3]).Some? && MemberList(words[4]).Good?
    then Some((ParseTag(words[1]).value, Gen.RawGenGroup(words[2], ParseTag(words[3]).value, MemberList(words[4]).value)))
    else None
  }

  function GenMessageAt(words: Line): (r: Option<Gen.RawGenMessage>) {
    if |words| >= 3 && words[0] == "message" && ReadModifiers(words[3..]).Good?
    then var m := ReadModifiers(words[3..]).value;
         Some(Gen.RawGenMessage(words[1], words[2], m.required, m.optional, m.ordered))
    else None
  }

  // ------------------------------------------------------------ they say the same

  /** Every word is the text of a tag. */
  ghost predicate AllTags(words: seq<string>) {
    forall i :: 0 <= i < |words| ==> SomeTag(words[i])
  }

  ghost predicate SomeTag(word: string) {
    exists t: Tag :: IsTag(word, t)
  }

  lemma {:induction false} ReadTagsExactly(words: seq<string>)
    ensures Runtime.ReadTags(words).Some? <==> AllTags(words)
    ensures Runtime.ReadTags(words).Some? ==>
              forall t: Tag :: t in Runtime.ReadTags(words).value <==> exists i :: 0 <= i < |words| && IsTag(words[i], t)
  {
    hide ParseTag;
    hide IsTag;
    hide SomeTag;
    if words != [] {
      var init, last := words[..|words| - 1], |words| - 1;
      ReadTagsExactly(init);
      assert forall i :: 0 <= i < last ==> init[i] == words[i];
      TagRead(words[last]);
      assert AllTags(words) <==> AllTags(init) && SomeTag(words[last]);
      if Runtime.ReadTags(words).Some? {
        var ts, added := Runtime.ReadTags(init).value, ParseTag(words[last]).value;
        forall t: Tag ensures t in ts + {added} <==> exists i :: 0 <= i < |words| && IsTag(words[i], t) {
          if t == added { assert IsTag(words[last], t); }
          if t in ts {
            var i :| 0 <= i < |init| && IsTag(init[i], t);
            assert IsTag(words[i], t);
          }
          if i :| 0 <= i < |words| && IsTag(words[i], t) {
            if i < last { assert IsTag(init[i], t); }
          }
        }
      }
    }
  }

  /** A word is the text of one tag at most. */
  lemma TagRead(word: string)
    ensures ParseTag(word).Some? <==> SomeTag(word)
    ensures forall t: Tag :: IsTag(word, t) ==> ParseTag(word) == Some(t)
    ensures ParseTag(word).Some? ==> IsTag(word, ParseTag(word).value)
  {
    hide ParseTag;
    hide IsTag;
    forall t: Tag ensures ParseTag(word) == Some(t) <==> IsTag(word, t) { ParseTagExactly(word, t); }
    if ParseTag(word).Some? { assert IsTag(word, ParseTag(word).value); }
  }

  lemma TagsAtExactly(words: Line, directive: string, t: Tag)
    ensures t in TagsAt(words, directive) <==> ListsTag(words, directive, t)
  {
    hide IsTag;
    hide ParseTag;
    forall i | 0 <= i < |words| ensures ParseTag(words[i]) == Some(t) <==> IsTag(words[i], t) { ParseTagExactly(words[i], t); }
  }

  lemma {:induction false} ReadTagsCollects(words: Line, i: nat)
    requires 1 <= i <= |words| && Runtime.ReadTags(words[1..i]).Some?
    ensures Runtime.ReadTags(words[1..i]).value == set j | 1 <= j < i && ParseTag(words[j]).Some? :: ParseTag(words[j]).value
  {
    hide ParseTag;
    if i > 1 {
      var all := words[1..i];
      assert all[..|all| - 1] == words[1..i - 1] && all[|all| - 1] == words[i - 1];
      ReadTagsCollects(words, i - 1);
    } else {
      assert words[1..i] == [];
    }
  }

  lemma ComponentAtExactly(words: Line, n: string, ms: seq<RawMember>)
    ensures ComponentAt(words) == Some((n, ms)) <==> IsComponent(words, n, ms)
  {
    hide MemberList;
    hide SpellsList;
    if |words| >= 3 { MemberListExactly(words[2], ms); }
  }

  lemma LastListUnique(words: seq<string>, prefix: string, ms: seq<RawMember>, ms': seq<RawMember>)
    requires LastList(words, prefix, ms) && LastList(words, prefix, ms')
    ensures ms == ms'
  {
    hide SpellsList;
    if i :| 0 <= i < |words| && LastWith(words, prefix, i) && SpellsList(words[i][|prefix|..], ms) {
      var i' :| 0 <= i' < |words| && LastWith(words, prefix, i') && SpellsList(words[i'][|prefix|..], ms');
      assert i == i';
      ListSpelled(words[i][|prefix|..]);
    }
  }

  lemma MessageAtExactly(words: Line, k: string, m: Runtime.RawMessage)
    ensures MessageAt(words) == Some((k, m)) <==> IsMessage(words, k, m)
  {
    hide ReadModifiers;
    hide LastList;
    hide ListsSpelled;
    if |words| >= 3 {
      ReadModifiersExactly(words[3..]);
      if IsMessage(words, k, m) {
        var read := ReadModifiers(words[3..]).value;
        LastListUnique(words[3..], "req:", m.required, read.required);
        LastListUnique(words[3..], "opt:", m.optional, read.optional);
      }
    }
  }

  lemma {:induction false} ReadRequiredExactly(words: seq<string>)
    ensures Runtime.ReadRequired(words).Good? <==> ListsSpelled(words, "req:")
    ensures Runtime.ReadRequired(words).Good? ==> LastList(words, "req:", Runtime.ReadRequired(words).value)
  {
    hide ListsSpelled;
    hide LastList;
    hide SpellsList;
    hide MemberList;
    if words == [] {
      NoLists();
    } else {
      var init, word := words[..|words| - 1], words[|words| - 1];
      assert words == init + [word];
      ReadRequiredExactly(init);
      ListsSpelledSnoc(init, "req:", word);
      if "req:" <= word { ListSpelled(word[4..]); }
      if Runtime.ReadRequired(words).Good? {
        LastListSnoc(init, "req:", word, Runtime.ReadRequired(words).value);
      }
    }
  }

  lemma GroupAtExactly(words: Line, c: Tag, g: Runtime.RawGroup)
    ensures GroupAt(words) == Some((c, g)) <==> IsGroup(words, c, g)
  {
    hide ParseTag;
    hide IsTag;
    hide MemberList;
    hide SpellsList;
    hide LastList;
    hide ListsSpelled;
    hide Runtime.ReadRequired;
    if |words| >= 5 {
      TagRead(words[1]);
      TagRead(words[3]);
      ListSpelled(words[4]);
      ReadRequiredExactly(words[5..]);
      if IsGroup(words, c, g) {
        LastListUnique(words[5..], "req:", g.required, Runtime.ReadRequired(words[5..]).value);
      }
    }
  }

  lemma ValueRead(word: string)
    ensures var p := SplitOnce(word, '=');
            && (forall v, l :: IsValue(word, v, Some(l)) <==> p == Some((v, l)))
            && (forall v :: IsValue(word, v, None) <==> p.None? && v == word)
  {
    hide SplitOnce;
    SplitOnceExactly(word, '=');
    forall v, l ensures IsValue(word, v, Some(l)) <==> SplitOnce(word, '=') == Some((v, l)) {
      if IsValue(word, v, Some(l)) {
        assert word[|v|] == '=';
        var p := SplitOnce(word, '=').value;
        FirstCut(word, p.0, p.1, v, l);
      }
    }
  }

  lemma FirstCut(word: string, a: string, b: string, v: string, l: string)
    requires word == a + ['='] + b && '=' !in a && word == v + "=" + l && '=' !in v
    ensures a == v && b == l
  {
    assert word[|a|] == '=' && word[|v|] == '=';
    assert word[..|a|] == a && word[..|v|] == v;
    assert word[|a| + 1..] == b && word[|v| + 1..] == l;
  }

  lemma {:induction false} LabelsRead(words: seq<string>, v: string, l: string)
    ensures Has(Runtime.ReadLabels(words), v, l) <==> exists i :: 0 <= i < |words| && LastLabel(words, i, v, l)
  {
    hide IsValue;
    if words != [] {
      var init, last := words[..|words| - 1], |words| - 1;
      LabelsRead(init, v, l);
      ValueRead(words[last]);
      assert forall i :: 0 <= i < last ==> init[i] == words[i];
      var p := SplitOnce(words[last], '=');
      if p.Some? && p.value.0 == v {
        assert IsValue(words[last], v, Some(p.value.1));
        if p.value.1 == l { assert LastLabel(words, last, v, l); }
        forall i | 0 <= i < |words| && LastLabel(words, i, v, l) ensures i == last { }
      } else {
        forall i | 0 <= i < last ensures LastLabel(words, i, v, l) <==> LastLabel(init, i, v, l) {
          if LastLabel(init, i, v, l) {
            forall j | i < j < |words| ensures !exists l' :: IsValue(words[j], v, Some(l')) {
              if j < last { assert words[j] == init[j]; }
            }
          }
        }
      }
    }
  }

  lemma ValuesRead(words: seq<string>, i: nat, v: string)
    requires i < |words|
    ensures Values(words[i], v) <==> v == Runtime.ReadValues(words)[i]
  {
    hide IsValue;
    ValueRead(words[i]);
    var p := SplitOnce(words[i], '=');
    if p.Some? {
      assert IsValue(words[i], p.value.0, Some(p.value.1));
    } else {
      assert IsValue(words[i], words[i], None);
    }
    if mark :| IsValue(words[i], v, mark) {
      if mark.Some? { assert IsValue(words[i], v, Some(mark.value)); } else { assert IsValue(words[i], v, None); }
    }
  }

  lemma EnumRead(words: seq<string>, values: seq<string>, labels: map<string, string>)
    ensures IsEnum(words, values, labels) <==> values == Runtime.ReadValues(words) && labels == Runtime.ReadLabels(words)
  {
    hide Values;
    hide LastLabel;
    hide Runtime.ReadLabels;
    forall i | 0 <= i < |words| && i < |values|
      ensures Values(words[i], values[i]) <==> values[i] == Runtime.ReadValues(words)[i]
    {
      ValuesRead(words, i, values[i]);
    }
    forall v, l ensures Has(Runtime.ReadLabels(words), v, l) <==> exists i :: 0 <= i < |words| && LastLabel(words, i, v, l) {
      LabelsRead(words, v, l);
    }
    if IsEnum(words, values, labels) {
      assert values == Runtime.ReadValues(words);
      SameTable(labels, Runtime.ReadLabels(words));
    }
  }

  lemma FieldAtExactly(words: Line, t: Tag, def: FieldDef)
    ensures FieldAt(words) == Some((t, def)) <==> IsField(words, t, def)
  {
    hide ParseTag;
    hide IsTag;
    hide IsEnum;
    hide Runtime.ReadLabels;
    hide Runtime.ReadValues;
    if |words| >= 4 {
      TagRead(words[1]);
      var args := words[1..];
      assert args[3..] == words[4..] && args[1] == words[2] && args[2] == words[3];
      if |words| > 4 { assert words[4..][0] == words[4] && words[4..][1..] == words[5..]; }
      var rest := Runtime.EnumWords(args[3..]);
      EnumRead(rest, def.values, def.labels);
    }
  }

  lemma VersionAtExactly(words: Line, key: string, name: string)
    ensures VersionAt(words) == Some((key, name)) <==> IsVersion(words, key, name)
  {
  }

  lemma LastNumberSnoc(words: seq<string>, prefix: string, word: string, x: Option<nat>)
    ensures LastNumber(words + [word], prefix, x) <==>
            if prefix <= word then Numbers(word[|prefix|..], x) else LastNumber(words, prefix, x)
  {
    hide Numbers;
    var all := words + [word];
    assert all[|words|] == word && forall i :: 0 <= i < |words| ==> all[i] == words[i];
    if prefix <= word {
      assert LastWith(all, prefix, |words|);
      if LastNumber(all, prefix, x) {
        var i :| 0 <= i < |all| && LastWith(all, prefix, i) && Numbers(all[i][|prefix|..], x);
        assert i == |words|;
      }
    } else {
      forall i | 0 <= i < |words| ensures LastWith(all, prefix, i) <==> LastWith(words, prefix, i) {
      }
      if LastNumber(words, prefix, x) {
        if i :| 0 <= i < |words| && LastWith(words, prefix, i) && Numbers(words[i][|prefix|..], x) {
          assert LastWith(all, prefix, i) && Numbers(all[i][|prefix|..], x);
        }
      }
    }
  }

  lemma NumberRead(word: string)
    ensures Numbers(word, ParseNumber(word, 255))
    ensures forall x :: Numbers(word, x) ==> x == ParseNumber(word, 255)
  {
    hide ParseNumber;
    hide IsNumber;
    forall n: nat ensures ParseNumber(word, 255) == Some(n) <==> n <= 255 && IsNumber(word, n) {
      ParseNumberExactly(word, 255, n);
    }
    assert ParseNumber(word, 255).Some? ==> IsNumber(word, ParseNumber(word, 255).value);
  }

  lemma LastNumberUnique(words: seq<string>, prefix: string, x: Option<nat>, y: Option<nat>)
    requires LastNumber(words, prefix, x) && LastNumber(words, prefix, y)
    ensures x == y
  {
    hide Numbers;
    if i :| 0 <= i < |words| && LastWith(words, prefix, i) && Numbers(words[i][|prefix|..], x) {
      var j :| 0 <= j < |words| && LastWith(words, prefix, j) && Numbers(words[j][|prefix|..], y);
      assert i == j;
      NumberRead(words[i][|prefix|..]);
    }
  }

  /** The four prefixes exclude each other. */
  lemma MetaPrefixes(word: string)
    ensures "major=" <= word ==> !("minor=" <= word) && !("sp=" <= word) && !("ep=" <= word)
    ensures "minor=" <= word ==> !("sp=" <= word) && !("ep=" <= word)
    ensures "sp=" <= word ==> !("ep=" <= word)
  {
    if "major=" <= word { assert word[0] == "major="[0] == 'm' && word[1] == "major="[1] == 'a'; }
    if "minor=" <= word { assert word[0] == "minor="[0] == 'm' && word[1] == "minor="[1] == 'i'; }
    if "sp=" <= word { assert word[0] == "sp="[0] == 's'; }
    if "ep=" <= word { assert word[0] == "ep="[0] == 'e'; }
  }

  ghost predicate MetaRead(words: seq<string>, m: Runtime.Meta) {
    && LastNumber(words, "major=", m.major) && LastNumber(words, "minor=", m.minor)
    && LastNumber(words, "sp=", m.sp) && LastNumber(words, "ep=", m.ep)
  }

  lemma {:induction false} ReadMetaExactly(words: seq<string>)
    ensures MetaRead(words, Runtime.ReadMeta(words))
  {
    if words != [] {
      hide LastNumber;
      hide Numbers;
      hide ParseNumber;
      var init, word := words[..|words| - 1], words[|words| - 1];
      assert words == init + [word];
      ReadMetaExactly(init);
      var m := Runtime.ReadMeta(words);
      MetaPrefixes(word);
      LastNumberSnoc(init, "major=", word, m.major);
      LastNumberSnoc(init, "minor=", word, m.minor);
      LastNumberSnoc(init, "sp=", word, m.sp);
      LastNumberSnoc(init, "ep=", word, m.ep);
      if "major=" <= word { NumberRead(word[6..]); }
      if "minor=" <= word { NumberRead(word[6..]); }
      if "sp=" <= word { NumberRead(word[3..]); }
      if "ep=" <= word { NumberRead(word[3..]); }
    }
  }

  lemma MetaAtExactly(words: Line, key: string, m: Version)
    ensures MetaAt(words) == Some((key, m)) <==> IsMeta(words, key, m)
  {
    hide LastNumber;
    hide Runtime.ReadMeta;
    if |words| >= 1 {
      var args := words[1..];
      ReadMetaExactly(args);
      var r := Runtime.ReadMeta(args);
      if IsMeta(words, key, m) {
        LastNumberUnique(args, "major=", Some(m.major), r.major);
        LastNumberUnique(args, "minor=", Some(m.minor), r.minor);
        LastNumberUnique(args, "sp=", m.servicePack, r.sp);
        LastNumberUnique(args, "ep=", m.extensionPack, r.ep);
      }
    }
  }

  lemma GenFieldAtExactly(words: Line, t: Tag, f: Gen.GenField)
    ensures GenFieldAt(words) == Some((t, f)) <==> IsGenField(words, t, f)
  {
    hide ParseTag;
    hide IsTag;
    hide IsValue;
    hide SplitOnce;
    if |words| >= 4 {
      TagRead(words[1]);
      var rest := Gen.WithoutOpen(words[4..]);
      if |words| > 4 { assert words[4..][0] == words[4] && words[4..][1..] == words[5..]; }
      assert rest == if |words| > 4 && words[4] == "open" then words[5..] else words[4..];
      GenValuesRead(rest, f.values);
    }
  }

  lemma GenValuesRead(words: seq<string>, values: seq<(string, Option<string>)>)
    ensures values == Gen.GenValues(words) <==>
            |values| == |words| && forall i :: 0 <= i < |words| ==> IsValue(words[i], values[i].0, values[i].1)
  {
    hide IsValue;
    hide SplitOnce;
    forall i | 0 <= i < |words| && i < |values|
      ensures IsValue(words[i], values[i].0, values[i].1) <==> values[i] == Gen.GenValue(words[i])
    {
      ValueRead(words[i]);
      if values[i].1.Some? {
        assert IsValue(words[i], values[i].0, Some(values[i].1.value)) <==> SplitOnce(words[i], '=') == Some((values[i].0, values[i].1.value));
      }
    }
  }

  lemma GenGroupAtExactly(words: Line, c: Tag, g: Gen.RawGenGroup)
    ensures GenGroupAt(words) == Some((c, g)) <==> IsGenGroup(words, c, g)
  {
    hide ParseTag;
    hide IsTag;
    hide MemberList;
    hide SpellsList;
    if |words| >= 5 {
      TagRead(words[1]);
      TagRead(words[3]);
      ListSpelled(words[4]);
    }
  }

  lemma GenMessageAtExactly(words: Line, m: Gen.RawGenMessage)
    ensures GenMessageAt(words) == Some(m) <==> IsGenMessage(words, m)
  {
    hide ReadModifiers;
    hide LastList;
    hide ListsSpelled;
    if |words| >= 3 {
      ReadModifiersExactly(words[3..]);
      if IsGenMessage(words, m) {
        var read := ReadModifiers(words[3..]).value;
        LastListUnique(words[3..], "req:", m.required, read.required);
        LastListUnique(words[3..], "opt:", m.optional, read.optional);
      }
    }
  }
}
