/** Merging one dictionary into another (`DataDictionary::extend` in `truefix-dict/src/model.rs`): conflicts
    are looked for before anything is changed, and the tags each message's groups bring along are collected
    anew afterwards. */
module Merging {
  import opened Decimal
  import opened FieldMaps
  import opened Dictionary
  import opened Graphs
  import opened GroupClosure
  import opened FlatGroups

  datatype Conflict =
    | FieldConflict(tag: Tag)
    | FieldNameConflict(name: string)
    | MessageConflict(msgType: string)
    | GroupConflict(countTag: Tag)
    | ComponentConflict(component: string)

  ghost predicate Agree<K, V>(a: map<K, V>, b: map<K, V>) {
    forall k :: k in a && k in b ==> a[k] == b[k]
  }

  /** No name of `other` belongs to another field of `self`. */
  ghost predicate NamesAgree(self: Dict, other: Dict) {
    forall t :: t in other.fields && other.fields[t].name in self.fieldByName ==>
      self.fieldByName[other.fields[t].name] == t
  }

  ghost predicate Compatible(self: Dict, other: Dict) {
    && Agree(self.fields, other.fields) && NamesAgree(self, other)
    && Agree(self.messages, other.messages)
    && Agree(self.groups, other.groups)
    && Agree(self.components, other.components)
  }

  /** What a reported conflict says. */
  ghost predicate Genuine(self: Dict, other: Dict, c: Conflict) {
    match c
    case FieldConflict(t) => t in self.fields && t in other.fields && self.fields[t] != other.fields[t]
    case FieldNameConflict(n) =>
      n in self.fieldByName && exists t :: t in other.fields && other.fields[t].name == n && self.fieldByName[n] != t
    case MessageConflict(k) => k in self.messages && k in other.messages && self.messages[k] != other.messages[k]
    case GroupConflict(t) => t in self.groups && t in other.groups && self.groups[t] != other.groups[t]
    case ComponentConflict(n) => n in self.components && n in other.components && self.components[n] != other.components[n]
  }

  function Seeds(m: MessageDef): (s: seq<Tag>) {
    m.required + m.optional
  }

  ghost function MemberTags(groups: Groups, m: MessageDef): (s: set<Tag>) {
    Closure(groups, set t | t in Seeds(m))
  }

  ghost function Recollected(groups: Groups, messages: map<string, MessageDef>): (r: map<string, MessageDef>) {
    map k | k in messages :: messages[k].(memberTags := MemberTags(groups, messages[k]))
  }

  ghost function Merged(self: Dict, other: Dict): (r: Dict) {
    var groups := other.groups + self.groups;
    Dict(self.version,
         other.fields + self.fields,
         other.fieldByName + self.fieldByName,
         Recollected(groups, other.messages + self.messages),
         self.header + other.header,
         self.trailer + other.trailer,
         groups,
         other.components + self.components)
  }

  // ----- what a dictionary keeps

  /** Fields and names are each other's inverse. */
  ghost predicate Inverse(fields: map<Tag, FieldDef>, names: map<string, Tag>) {
    && (forall t :: t in fields ==> fields[t].tag == t && fields[t].name in names && names[fields[t].name] == t)
    && (forall n :: n in names ==> names[n] in fields && fields[names[n]].name == n)
  }

  ghost predicate NamesInverse(d: Dict) {
    Inverse(d.fields, d.fieldByName)
  }

  /** Each message's collected tags are its closure under the dictionary's own groups. */
  ghost predicate MembersCollected(d: Dict) {
    forall k :: k in d.messages ==> d.messages[k].memberTags == MemberTags(d.groups, d.messages[k])
  }

  /** Each group's child dictionary repeats definitions of the enclosing one. */
  ghost predicate ChildrenInside(d: Dict) {
    forall c :: c in d.groups && d.groups[c].child.Some? ==> SubMap(d.groups[c].child.value.fields, d.fields)
  }

  ghost predicate WellFormed(d: Dict) {
    NamesInverse(d) && MembersCollected(d) && ChildrenInside(d)
  }

  /** A clash between two tables, if there is one. */
  method FindClash<K(==), V(==)>(mine: map<K, V>, theirs: map<K, V>) returns (r: Option<K>)
    ensures r.None? <==> Agree(mine, theirs)
    ensures r.Some? ==> r.value in mine && r.value in theirs && mine[r.value] != theirs[r.value]
  {
    var todo := theirs.Keys;
    while todo != {}
      invariant todo <= theirs.Keys
      invariant forall k :: k in theirs && k !in todo && k in mine ==> mine[k] == theirs[k]
      decreases todo
    {
      var k :| k in todo;
      if k in mine && mine[k] != theirs[k] {
        return Some(k);
      }
      todo := todo - {k};
    }
    r := None;
  }

  /** `entry(k).or_insert(v)` for every pair of `extra`. */
  method InsertMissing<K(==), V>(base: map<K, V>, extra: map<K, V>) returns (r: map<K, V>)
    ensures r == extra + base
  {
    r := base;
    var todo := extra.Keys;
    while todo != {}
      invariant todo <= extra.Keys
      invariant r.Keys == base.Keys + (extra.Keys - todo)
      invariant forall k :: k in r ==> r[k] == if k in base then base[k] else extra[k]
      decreases todo
    {
      var k :| k in todo;
      if k !in r {
        r := r[k := extra[k]];
      }
      todo := todo - {k};
    }
  }

  /** `entry(name).or_insert(tag)` for every field; `names` is what the fields' own index must be. */
  method InsertNames(base: map<string, Tag>, fields: map<Tag, FieldDef>, ghost names: map<string, Tag>) returns (r: map<string, Tag>)
    requires Inverse(fields, names)
    ensures r == names + base
  {
    r := base;
    var todo := fields.Keys;
    while todo != {}
      invariant todo <= fields.Keys
      invariant forall t :: t in fields && t !in todo ==> fields[t].name in r
      invariant forall n :: n in base ==> n in r && r[n] == base[n]
      invariant forall n :: n in r && n !in base ==> n in names && r[n] == names[n]
      decreases todo
    {
      var t :| t in todo;
      if fields[t].name !in r {
        r := r[fields[t].name := t];
      }
      todo := todo - {t};
    }
    forall n | n in names ensures n in r {
      assert fields[names[n]].name == n;
    }
  }

  class DataDictionary {
    var version: string
    var fields: map<Tag, FieldDef>
    var fieldByName: map<string, Tag>
    var messages: map<string, MessageDef>
    var header: set<Tag>
    var trailer: set<Tag>
    var groups: map<Tag, GroupDef>
    var components: map<string, seq<Tag>>

    function View(): (d: Dict)
      reads this
    {
      Dict(version, fields, fieldByName, messages, header, trailer, groups, components)
    }

    method FindNameClash(other: Dict) returns (r: Option<string>)
      ensures r.None? <==> NamesAgree(View(), other)
      ensures r.Some? ==> Genuine(View(), other, FieldNameConflict(r.value))
    {
      var todo := other.fields.Keys;
      while todo != {}
        invariant todo <= other.fields.Keys
        invariant forall t :: t in other.fields && t !in todo && other.fields[t].name in fieldByName ==>
                    fieldByName[other.fields[t].name] == t
        decreases todo
      {
        var t :| t in todo;
        var name := other.fields[t].name;
        if name in fieldByName && fieldByName[name] != t {
          return Some(name);
        }
        todo := todo - {t};
      }
      r := None;
    }

    /** The dry run: a conflict with `other`, if there is one. */
    method FindConflict(other: Dict) returns (r: Option<Conflict>)
      ensures r.None? <==> Compatible(View(), other)
      ensures r.Some? ==> Genuine(View(), other, r.value)
    {
      var f := FindClash(fields, other.fields);
      if f.Some? { return Some(FieldConflict(f.value)); }
      var n := FindNameClash(other);
      if n.Some? { return Some(FieldNameConflict(n.value)); }
      var m := FindClash(messages, other.messages);
      if m.Some? { return Some(MessageConflict(m.value)); }
      var g := FindClash(groups, other.groups);
      if g.Some? { return Some(GroupConflict(g.value)); }
      var c := FindClash(components, other.components);
      if c.Some? { return Some(ComponentConflict(c.value)); }
      r := None;
    }

    /** Collect every message's member tags anew. */
    method Recollect()
      modifies this`messages
      ensures messages == Recollected(groups, old(messages))
    {
      var done := {};
      while done != messages.Keys
        invariant done <= messages.Keys == old(messages).Keys
        invariant forall k :: k in done ==> messages[k] == old(messages)[k].(memberTags := MemberTags(groups, old(messages)[k]))
        invariant forall k :: k in messages && k !in done ==> messages[k] == old(messages)[k]
        decreases messages.Keys - done
      {
        assert messages.Keys - done != {};
        var k :| k in messages.Keys - done;
        var tags := CollectAll(groups, Seeds(messages[k]));
        messages := messages[k := messages[k].(memberTags := tags)];
        done := done + {k};
      }
    }

    /** Merge `other` in. A conflict leaves everything as it was. */
    method Extend(other: Dict) returns (r: Option<Conflict>)
      requires NamesInverse(other)
      modifies this
      ensures r.None? <==> Compatible(old(View()), other)
      ensures r.Some? ==> View() == old(View()) && Genuine(old(View()), other, r.value)
      ensures r.None? ==> View() == Merged(old(View()), other)
    {
      r := FindConflict(other);
      if r.Some? {
        return;
      }
      fields := InsertMissing(fields, other.fields);
      fieldByName := InsertNames(fieldByName, other.fields, other.fieldByName);
      messages := InsertMissing(messages, other.messages);
      groups := InsertMissing(groups, other.groups);
      components := InsertMissing(components, other.components);
      header := header + other.header;
      trailer := trailer + other.trailer;
      Recollect();
    }
  }

  // ----- what a merge holds

  ghost predicate Has<K, V>(m: map<K, V>, k: K, v: V) {
    k in m && m[k] == v
  }

  /** The table holds what either table holds, and nothing else. */
  ghost predicate IsUnion<K(!new), V(!new)>(m: map<K, V>, a: map<K, V>, b: map<K, V>) {
    forall k, v :: Has(m, k, v) <==> Has(a, k, v) || Has(b, k, v)
  }

  lemma AgreeingUnion<K(!new), V(!new)>(a: map<K, V>, b: map<K, V>)
    requires Agree(a, b)
    ensures IsUnion(b + a, a, b)
  {
  }

  /** A message as it was, but for the tags its groups bring along. */
  ghost predicate SameButTags(m: MessageDef, n: MessageDef) {
    m.(memberTags := n.memberTags) == n
  }

  /** The merge of two compatible dictionaries: every table is the union of both, header and trailer included; the
      version is the first one's; and each message is as it was, with the tags collected under the merged groups. */
  lemma MergedIsUnion(self: Dict, other: Dict)
    requires Compatible(self, other) && NamesInverse(self) && NamesInverse(other)
    ensures var d := Merged(self, other);
            && d.version == self.version
            && IsUnion(d.fields, self.fields, other.fields)
            && IsUnion(d.fieldByName, self.fieldByName, other.fieldByName)
            && IsUnion(d.groups, self.groups, other.groups)
            && IsUnion(d.components, self.components, other.components)
            && (forall t :: t in d.header <==> t in self.header || t in other.header)
            && (forall t :: t in d.trailer <==> t in self.trailer || t in other.trailer)
            && (forall k :: k in d.messages <==> k in self.messages || k in other.messages)
            && (forall k :: k in d.messages ==>
                  && (k in self.messages ==> SameButTags(d.messages[k], self.messages[k]))
                  && (k in other.messages ==> SameButTags(d.messages[k], other.messages[k]))
                  && d.messages[k].memberTags == MemberTags(d.groups, d.messages[k]))
  {
    hide MemberTags;
    hide IsUnion;
    AgreeingUnion(self.fields, other.fields);
    AgreeingUnion(self.groups, other.groups);
    AgreeingUnion(self.components, other.components);
    assert Agree(self.fieldByName, other.fieldByName) by { NamesIndexAgree(self, other); }
    AgreeingUnion(self.fieldByName, other.fieldByName);
    MergedMessages(self, other);
  }

  lemma NamesIndexAgree(self: Dict, other: Dict)
    requires NamesAgree(self, other) && NamesInverse(self) && NamesInverse(other)
    ensures Agree(self.fieldByName, other.fieldByName)
  {
    forall n | n in self.fieldByName && n in other.fieldByName ensures self.fieldByName[n] == other.fieldByName[n] {
      assert other.fields[other.fieldByName[n]].name == n;
    }
  }

  lemma MergedMessages(self: Dict, other: Dict)
    requires Agree(self.messages, other.messages)
    ensures var d := Merged(self, other);
            && (forall k :: k in d.messages <==> k in self.messages || k in other.messages)
            && (forall k :: k in d.messages ==>
                  && (k in self.messages ==> SameButTags(d.messages[k], self.messages[k]))
                  && (k in other.messages ==> SameButTags(d.messages[k], other.messages[k]))
                  && d.messages[k].memberTags == MemberTags(d.groups, d.messages[k]))
  {
    var d := Merged(self, other);
    forall k | k in d.messages ensures d.messages[k].memberTags == MemberTags(d.groups, d.messages[k]) {
      assert Seeds(d.messages[k]) == Seeds((other.messages + self.messages)[k]);
    }
  }

  // ----- invariants of merging

  /** Merged tables of fields and names are inverse again, and hold both parts unchanged. */
  lemma InverseMerges(fa: map<Tag, FieldDef>, na: map<string, Tag>, fb: map<Tag, FieldDef>, nb: map<string, Tag>)
    requires Inverse(fa, na) && Inverse(fb, nb) && Agree(fa, fb)
    requires forall t :: t in fb && fb[t].name in na ==> na[fb[t].name] == t
    ensures Inverse(fb + fa, nb + na)
    ensures SubMap(fa, fb + fa) && SubMap(fb, fb + fa) && SubMap(nb, nb + na)
  {
    var f, names := fb + fa, nb + na;
    forall n | n in nb ensures names[n] == nb[n] {
      assert fb[nb[n]].name == n;
    }
    forall n | n in names ensures names[n] in f && f[names[n]].name == n {
      if n in nb { assert fb[nb[n]].name == n; }
    }
  }

  lemma ChildrenStayInside(a: Dict, b: Dict)
    requires ChildrenInside(a) && ChildrenInside(b) && Agree(a.fields, b.fields) && Agree(a.groups, b.groups)
    ensures ChildrenInside(Merged(a, b))
    ensures SubMap(a.groups, Merged(a, b).groups) && SubMap(b.groups, Merged(a, b).groups)
  {
    hide Recollected;
    var m := Merged(a, b);
    forall c | c in m.groups && m.groups[c].child.Some?
      ensures SubMap(m.groups[c].child.value.fields, m.fields)
    {
      if c in a.groups {
        assert SubMap(a.groups[c].child.value.fields, a.fields);
      } else {
        assert SubMap(b.groups[c].child.value.fields, b.fields);
      }
    }
  }

  lemma RecollectedIsCollected(groups: Groups, messages: map<string, MessageDef>)
    ensures forall k :: k in messages ==>
              Recollected(groups, messages)[k].memberTags == MemberTags(groups, Recollected(groups, messages)[k])
  {
    hide Closure;
    forall k | k in messages
      ensures Recollected(groups, messages)[k].memberTags == MemberTags(groups, Recollected(groups, messages)[k])
    {
      assert Seeds(Recollected(groups, messages)[k]) == Seeds(messages[k]);
    }
  }

  /** A merge of well-formed dictionaries is well formed and keeps both parts' fields and groups. */
  lemma MergedWellFormed(a: Dict, b: Dict)
    requires WellFormed(a) && WellFormed(b) && Compatible(a, b)
    ensures WellFormed(Merged(a, b))
    ensures SubMap(a.fields, Merged(a, b).fields) && SubMap(b.fields, Merged(a, b).fields)
    ensures SubMap(a.groups, Merged(a, b).groups) && SubMap(b.groups, Merged(a, b).groups)
  {
    hide MemberTags;
    InverseMerges(a.fields, a.fieldByName, b.fields, b.fieldByName);
    ChildrenStayInside(a, b);
    RecollectedIsCollected(b.groups + a.groups, b.messages + a.messages);
  }

  /** A run of merges: a conflicting extension is refused and skipped. */
  ghost function ExtendRun(d: Dict, others: seq<Dict>): (r: Dict)
    decreases |others|
  {
    if others == [] then d
    else ExtendRun(if Compatible(d, others[0]) then Merged(d, others[0]) else d, others[1..])
  }

  /** Over every run of merges of well-formed dictionaries the result is well formed, and no field or group
      definition ever in force changes. */
  lemma {:induction false} ExtendRunKeeps(d: Dict, others: seq<Dict>)
    requires WellFormed(d) && forall i :: 0 <= i < |others| ==> WellFormed(others[i])
    ensures WellFormed(ExtendRun(d, others))
    ensures SubMap(d.fields, ExtendRun(d, others).fields) && SubMap(d.groups, ExtendRun(d, others).groups)
    decreases |others|
  {
    hide Compatible;
    hide Merged;
    hide WellFormed;
    if others != [] {
      var next := if Compatible(d, others[0]) then Merged(d, others[0]) else d;
      if Compatible(d, others[0]) {
        MergedWellFormed(d, others[0]);
      }
      ExtendRunKeeps(next, others[1..]);
    }
  }

  /** In a well-formed dictionary, asking a group's child first and the dictionary second is asking the
      dictionary. */
  lemma ChildLookupIsDirect(d: Dict, c: Tag, tag: Tag)
    requires ChildrenInside(d) && c in d.groups
    ensures LookupInGroup(d, d.groups[c], tag) == if tag in d.fields then Some(d.fields[tag]) else None
  {
    if d.groups[c].child.Some? { assert SubMap(d.groups[c].child.value.fields, d.fields); }
  }

  // ----- merging the same extension twice

  lemma UnionWithSub<K, V>(big: map<K, V>, small: map<K, V>)
    requires SubMap(small, big)
    ensures small + big == big
  {
  }

  /** After a merge only the extension's messages can still conflict with it. */
  lemma OnlyMessagesCanConflict(a: Dict, b: Dict)
    requires NamesInverse(a) && NamesInverse(b) && Compatible(a, b)
    ensures Compatible(Merged(a, b), b) <==> Agree(Merged(a, b).messages, b.messages)
  {
    hide Recollected;
    InverseMerges(a.fields, a.fieldByName, b.fields, b.fieldByName);
  }

  lemma MergeAgainChangesNothing(a: Dict, b: Dict)
    requires NamesInverse(a) && NamesInverse(b) && Compatible(a, b) && Agree(Merged(a, b).messages, b.messages)
    ensures Merged(Merged(a, b), b) == Merged(a, b)
  {
    var groups, messages := b.groups + a.groups, b.messages + a.messages;
    RecollectedAgain(groups, messages);
    InverseMerges(a.fields, a.fieldByName, b.fields, b.fieldByName);
    hide MemberTags;
    var m := Merged(a, b);
    assert m.messages.Keys == messages.Keys;
    UnionWithSub(m.messages, b.messages);
    hide Recollected;
    UnionWithSub(m.fields, b.fields);
    UnionWithSub(m.fieldByName, b.fieldByName);
    UnionWithSub(m.groups, b.groups);
    UnionWithSub(m.components, b.components);
  }

  /** Merging the same extension again is refused, as a message conflict, exactly when the first merge
      changed the member tags of one of the extension's own messages; otherwise it changes nothing. */
  lemma ExtendTwice(a: Dict, b: Dict)
    requires WellFormed(a) && WellFormed(b) && Compatible(a, b)
    ensures var m := Merged(a, b);
            && (Compatible(m, b) <==>
                forall k :: k in b.messages ==> MemberTags(m.groups, b.messages[k]) == MemberTags(b.groups, b.messages[k]))
            && (Compatible(m, b) ==> Merged(m, b) == m)
            && (!Compatible(m, b) ==> !Agree(m.messages, b.messages))
  {
    hide MemberTags;
    hide Recollected;
    OnlyMessagesCanConflict(a, b);
    MessagesAgreeWhen(b.groups + a.groups, a.messages, b.messages);
    if Agree(Merged(a, b).messages, b.messages) {
      MergeAgainChangesNothing(a, b);
    }
  }

  lemma MessagesAgreeWhen(groups: Groups, ma: map<string, MessageDef>, mb: map<string, MessageDef>)
    requires Agree(ma, mb)
    ensures Agree(Recollected(groups, mb + ma), mb) <==>
            forall k :: k in mb ==> MemberTags(groups, mb[k]) == mb[k].memberTags
  {
    hide MemberTags;
    var r := Recollected(groups, mb + ma);
    forall k | k in mb ensures k in r && r[k] == mb[k].(memberTags := MemberTags(groups, mb[k])) {
      assert (mb + ma)[k] == mb[k];
    }
  }

  lemma RecollectedAgain(groups: Groups, messages: map<string, MessageDef>)
    ensures Recollected(groups, Recollected(groups, messages)) == Recollected(groups, messages)
  {
    hide Closure;
    var r := Recollected(groups, messages);
    forall k | k in messages ensures r[k].(memberTags := MemberTags(groups, r[k])) == r[k] {
      assert Seeds(r[k]) == Seeds(messages[k]);
    }
  }

  /** The refusal does happen: the extension's message refers to a count tag that only the base defines. */
  lemma ExtendTwiceCanFail()
    ensures exists a, b :: WellFormed(a) && WellFormed(b) && Compatible(a, b) && !Compatible(Merged(a, b), b)
  {
    var g := GroupDef(2, [2], [], None);
    var a := Dict("", map[], map[], map[], {}, {}, map[1 := g], map[]);
    var order := MessageDef("D", "Order", [], [1], {}, None);
    var b := Dict("", map[], map[], map["D" := order], {}, {}, map[], map[]);
    assert MemberTags(b.groups, order) == {} by {
      assert Universe(b.groups) == {};
    }
    var m := Merged(a, b);
    assert m.groups == a.groups;
    assert 2 in MemberTags(m.groups, order) by {
      assert Edge(MemberGraph(m.groups), 1, 2) by { assert 2 in m.groups[1].members; }
      EdgeReaches(MemberGraph(m.groups), 1, 2);
      ReachedInUniverse(m.groups, 1, 2);
      assert 1 in Seeds(order) by { assert Seeds(order)[0] == 1; }
    }
    ExtendTwice(a, b);
    assert b.messages["D"] == order;
  }
}
