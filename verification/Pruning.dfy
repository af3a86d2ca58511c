/** Dropping components that have no members left (`convert` in `truefix-dict/src/fix_repository.rs`): a
    fixpoint loop, since dropping the references to one component can empty another. */
module Pruning {
  import opened Decimal
  import opened FieldMaps
  import opened Components

  datatype Component = Component(name: string, members: seq<RawMember>)

  datatype Document = Document(
    components: seq<Component>,
    groups: seq<seq<RawMember>>,
    messages: seq<(seq<RawMember>, seq<RawMember>)>)

  type Table = map<string, seq<RawMember>>

  function Names(cs: seq<Component>): (s: set<string>) {
    set i | 0 <= i < |cs| :: cs[i].name
  }

  function TableOf(cs: seq<Component>): (t: Table)
    ensures t.Keys == Names(cs)
    ensures forall n :: n in t ==> exists i :: 0 <= i < |cs| && cs[i] == Component(n, t[n])
  {
    if cs == [] then map[]
    else
      var init, last := cs[..|cs| - 1], cs[|cs| - 1];
      var t := TableOf(init);
      assert Names(cs) == Names(init) + {last.name};
      t[last.name := last.members]
  }

  ghost predicate Distinct(cs: seq<Component>) {
    forall i, j :: 0 <= i < j < |cs| ==> cs[i].name != cs[j].name
  }

  /** `flatten_members`: nested components in line, unknown ones as nothing; `None` once more than `left`
      levels are entered. */
  function Flatten(t: Table, ms: seq<RawMember>, left: nat): (r: Option<seq<Tag>>)
    decreases left, |ms|
  {
    if ms == [] then Some([])
    else
      var head := FlattenOne(t, ms[0], left);
      var tail := Flatten(t, ms[1..], left);
      if head.None? || tail.None? then None else Some(head.value + tail.value)
  }

  function FlattenOne(t: Table, m: RawMember, left: nat): (r: Option<seq<Tag>>)
    decreases left, 0
  {
    match m
    case TagMember(tag) => Some([tag])
    case ComponentRef(n) =>
      if n !in t then Some([])
      else if left == 0 then None
      else Flatten(t, t[n], left - 1)
  }

  const MAX_FLATTEN_DEPTH: nat := 16

  /** What has been collected, before what is still to come. */
  function After(out: seq<Tag>, tail: Option<seq<Tag>>): Option<seq<Tag>> {
    if tail.None? then None else Some(out + tail.value)
  }

  lemma AfterStart(tail: Option<seq<Tag>>)
    ensures After([], tail) == tail
  {
    assert tail.Some? ==> [] + tail.value == tail.value;
  }

  lemma FlattenFrom(t: Table, ms: seq<RawMember>, i: nat, left: nat, out: seq<Tag>)
    requires i < |ms|
    ensures After(out, Flatten(t, ms[i..], left)) ==
            var head := FlattenOne(t, ms[i], left);
            if head.None? then None else After(out + head.value, Flatten(t, ms[i + 1..], left))
  {
    hide FlattenOne;
    assert ms[i..][0] == ms[i] && ms[i..][1..] == ms[i + 1..];
    var head, tail := FlattenOne(t, ms[i], left), Flatten(t, ms[i + 1..], left);
    assert head.Some? && tail.Some? ==> out + (head.value + tail.value) == (out + head.value) + tail.value;
  }

  /** Fails rather than recurse more than `MAX_FLATTEN_DEPTH` components below the first. */
  method FlattenMembers(ms: seq<RawMember>, t: Table, depth: nat) returns (r: Option<seq<Tag>>)
    requires depth <= MAX_FLATTEN_DEPTH + 1
    ensures r == Flatten(t, ms, MAX_FLATTEN_DEPTH + 1 - depth)
    decreases MAX_FLATTEN_DEPTH + 1 - depth
  {
    ghost var left := MAX_FLATTEN_DEPTH + 1 - depth;
    var out := [];
    AfterStart(Flatten(t, ms, left));
    assert ms[0..] == ms;
    for i := 0 to |ms|
      invariant Flatten(t, ms, left) == After(out, Flatten(t, ms[i..], left))
    {
      FlattenFrom(t, ms, i, left, out);
      match ms[i] {
        case TagMember(tag) => out := out + [tag];
        case ComponentRef(n) =>
          if n in t {
            if depth > MAX_FLATTEN_DEPTH {
              return None;
            }
            var sub := FlattenMembers(t[n], t, depth + 1);
            if sub.None? {
              return None;
            }
            out := out + sub.value;
          } else {
            assert out + [] == out;
          }
      }
    }
    assert out + [] == out;
    r := Some(out);
  }

  /** The tags a member list stands for, however deep its components nest. */
  ghost predicate FlattensTo(t: Table, ms: seq<RawMember>, tags: seq<Tag>) {
    exists left: nat :: Flatten(t, ms, left) == Some(tags)
  }

  // ----- dropping

  function DropRefs(ms: seq<RawMember>, gone: set<string>): (r: seq<RawMember>)
    ensures forall m :: m in r <==> m in ms && !(m.ComponentRef? && m.name in gone)
  {
    if ms == [] then []
    else (if ms[0].ComponentRef? && ms[0].name in gone then [] else [ms[0]]) + DropRefs(ms[1..], gone)
  }

  function DropComponents(cs: seq<Component>, gone: set<string>): (r: seq<Component>)
    ensures forall c :: c in r ==> c.name !in gone && exists b :: b in cs && c == Component(b.name, DropRefs(b.members, gone))
    ensures forall b :: b in cs && b.name !in gone ==> Component(b.name, DropRefs(b.members, gone)) in r
    ensures |r| <= |cs|
  {
    if cs == [] then []
    else
      var here := if cs[0].name in gone then [] else [Component(cs[0].name, DropRefs(cs[0].members, gone))];
      here + DropComponents(cs[1..], gone)
  }

  function DropLists(ls: seq<seq<RawMember>>, gone: set<string>): (r: seq<seq<RawMember>>)
    ensures |r| == |ls| && forall i :: 0 <= i < |ls| ==> r[i] == DropRefs(ls[i], gone)
  {
    seq(|ls|, i requires 0 <= i < |ls| => DropRefs(ls[i], gone))
  }

  function DropMessages(ms: seq<(seq<RawMember>, seq<RawMember>)>, gone: set<string>): (r: seq<(seq<RawMember>, seq<RawMember>)>)
    ensures |r| == |ms| && forall i :: 0 <= i < |ms| ==> r[i] == (DropRefs(ms[i].0, gone), DropRefs(ms[i].1, gone))
  {
    seq(|ms|, i requires 0 <= i < |ms| => (DropRefs(ms[i].0, gone), DropRefs(ms[i].1, gone)))
  }

  /** The document without the components in `gone` and without references to them. */
  function Drop(doc: Document, gone: set<string>): (r: Document) {
    Document(DropComponents(doc.components, gone), DropLists(doc.groups, gone), DropMessages(doc.messages, gone))
  }

  function EmptyNames(cs: seq<Component>): (s: set<string>) {
    set i | 0 <= i < |cs| && cs[i].members == [] :: cs[i].name
  }

  lemma {:induction false} DropRefsTwice(ms: seq<RawMember>, s: set<string>, t: set<string>)
    ensures DropRefs(DropRefs(ms, s), t) == DropRefs(ms, s + t)
  {
    if ms != [] {
      DropRefsTwice(ms[1..], s, t);
      var rest := DropRefs(ms[1..], s);
      if !(ms[0].ComponentRef? && ms[0].name in s) {
        assert ([ms[0]] + rest)[1..] == rest;
      } else {
        assert [] + rest == rest;
      }
    }
  }

  lemma {:induction false} DropComponentsTwice(cs: seq<Component>, s: set<string>, t: set<string>)
    ensures DropComponents(DropComponents(cs, s), t) == DropComponents(cs, s + t)
  {
    if cs != [] {
      DropComponentsTwice(cs[1..], s, t);
      DropRefsTwice(cs[0].members, s, t);
      var rest := DropComponents(cs[1..], s);
      if cs[0].name !in s {
        assert ([Component(cs[0].name, DropRefs(cs[0].members, s))] + rest)[1..] == rest;
      } else {
        assert [] + rest == rest;
      }
    }
  }

  lemma DropListsTwice(ls: seq<seq<RawMember>>, s: set<string>, t: set<string>)
    ensures DropLists(DropLists(ls, s), t) == DropLists(ls, s + t)
  {
    hide DropRefs;
    forall i | 0 <= i < |ls| ensures DropLists(DropLists(ls, s), t)[i] == DropLists(ls, s + t)[i] {
      DropRefsTwice(ls[i], s, t);
    }
  }

  lemma DropMessagesTwice(ms: seq<(seq<RawMember>, seq<RawMember>)>, s: set<string>, t: set<string>)
    ensures DropMessages(DropMessages(ms, s), t) == DropMessages(ms, s + t)
  {
    hide DropRefs;
    forall i | 0 <= i < |ms| ensures DropMessages(DropMessages(ms, s), t)[i] == DropMessages(ms, s + t)[i] {
      DropRefsTwice(ms[i].0, s, t);
      DropRefsTwice(ms[i].1, s, t);
    }
  }

  lemma DropTwice(doc: Document, s: set<string>, t: set<string>)
    ensures Drop(Drop(doc, s), t) == Drop(doc, s + t)
  {
    DropComponentsTwice(doc.components, s, t);
    DropListsTwice(doc.groups, s, t);
    DropMessagesTwice(doc.messages, s, t);
  }

  lemma {:induction false} DropNothing(ms: seq<RawMember>)
    ensures DropRefs(ms, {}) == ms
  {
    if ms != [] { DropNothing(ms[1..]); assert [ms[0]] + ms[1..] == ms; }
  }

  lemma {:induction false} DropNoComponents(cs: seq<Component>)
    ensures DropComponents(cs, {}) == cs
  {
    if cs != [] { DropNothing(cs[0].members); DropNoComponents(cs[1..]); assert [cs[0]] + cs[1..] == cs; }
  }

  lemma DropNone(doc: Document)
    ensures Drop(doc, {}) == doc
  {
    DropNoComponents(doc.components);
    forall i | 0 <= i < |doc.groups| ensures DropLists(doc.groups, {})[i] == doc.groups[i] { DropNothing(doc.groups[i]); }
    forall i | 0 <= i < |doc.messages| ensures DropMessages(doc.messages, {})[i] == doc.messages[i] {
      DropNothing(doc.messages[i].0);
      DropNothing(doc.messages[i].1);
    }
  }

  // ----- flattening does not see what is dropped

  lemma {:induction false} FlattenMonotone(t: Table, ms: seq<RawMember>, left: nat, more: nat)
    requires left <= more && Flatten(t, ms, left).Some?
    ensures Flatten(t, ms, more) == Flatten(t, ms, left)
    decreases left, |ms|
  {
    if ms != [] {
      if ms[0].ComponentRef? && ms[0].name in t {
        FlattenMonotone(t, t[ms[0].name], left - 1, more - 1);
      }
      FlattenMonotone(t, ms[1..], left, more);
    }
  }

  /** Every name in `gone` is defined and stands for no tags, within `k` levels. */
  ghost predicate Hollow(t: Table, gone: set<string>, k: nat) {
    forall n :: n in gone ==> n in t && Flatten(t, t[n], k) == Some([])
  }

  lemma HollowNothing(t: Table)
    ensures Hollow(t, {}, 0)
  {
  }

  /** The table of what survives. */
  function Surviving(t: Table, gone: set<string>): (r: Table) {
    map n | n in t && n !in gone :: DropRefs(t[n], gone)
  }

  /** A list that flattens within some number of levels still does so within as many, to the same tags. */
  lemma {:induction false} FlattenDropped(t: Table, gone: set<string>, k: nat, ms: seq<RawMember>, left: nat)
    requires Hollow(t, gone, k) && Flatten(t, ms, left).Some?
    ensures Flatten(Surviving(t, gone), DropRefs(ms, gone), left) == Flatten(t, ms, left)
    decreases left, |ms|
  {
    if ms != [] {
      FlattenDropped(t, gone, k, ms[1..], left);
      var m, rest := ms[0], DropRefs(ms[1..], gone);
      if m.ComponentRef? && m.name in gone {
        HollowAtAnyDepth(t, gone, k, m.name, left - 1);
        assert [] + rest == rest;
        assert [] + Flatten(t, ms[1..], left).value == Flatten(t, ms[1..], left).value;
      } else {
        assert ([m] + rest)[1..] == rest;
        if m.ComponentRef? && m.name in t {
          FlattenDropped(t, gone, k, t[m.name], left - 1);
        }
      }
    }
  }

  lemma HollowAtAnyDepth(t: Table, gone: set<string>, k: nat, n: string, left: nat)
    requires Hollow(t, gone, k) && n in gone && Flatten(t, t[n], left).Some?
    ensures Flatten(t, t[n], left) == Some([])
  {
    if left <= k { FlattenMonotone(t, t[n], left, k); } else { FlattenMonotone(t, t[n], k, left); }
  }

  lemma FlattenCons(t: Table, ms: seq<RawMember>, left: nat)
    requires ms != []
    ensures var head, tail := FlattenOne(t, ms[0], left), Flatten(t, ms[1..], left);
            Flatten(t, ms, left) == if head.None? || tail.None? then None else Some(head.value + tail.value)
  {
    hide FlattenOne;
  }

  /** A hollow component in front adds nothing. */
  lemma FlattenHollow(t: Table, gone: set<string>, k: nat, ms: seq<RawMember>, deep: nat)
    requires Hollow(t, gone, k) && deep > k
    requires ms != [] && ms[0].ComponentRef? && ms[0].name in gone && Flatten(t, ms[1..], deep).Some?
    ensures Flatten(t, ms, deep) == Flatten(t, ms[1..], deep)
  {
    FlattenMonotone(t, t[ms[0].name], k, deep - 1);
    assert FlattenOne(t, ms[0], deep) == Some([]);
    assert [] + Flatten(t, ms[1..], deep).value == Flatten(t, ms[1..], deep).value;
  }

  lemma {:induction false} HeadRestored(t: Table, gone: set<string>, k: nat, m: RawMember, left: nat)
    requires Hollow(t, gone, k) && !(m.ComponentRef? && m.name in gone) && FlattenOne(Surviving(t, gone), m, left).Some?
    ensures FlattenOne(t, m, left + k + 1) == FlattenOne(Surviving(t, gone), m, left)
    decreases left, 0
  {
    hide Hollow;
    hide Flatten;
    if m.ComponentRef? && m.name in t {
      FlattenRestored(t, gone, k, t[m.name], left - 1);
    }
  }

  lemma {:induction false} FlattenRestored(t: Table, gone: set<string>, k: nat, ms: seq<RawMember>, left: nat)
    requires Hollow(t, gone, k) && Flatten(Surviving(t, gone), DropRefs(ms, gone), left).Some?
    ensures Flatten(t, ms, left + k + 1) == Flatten(Surviving(t, gone), DropRefs(ms, gone), left)
    decreases left, |ms|
  {
    hide Hollow;
    hide Surviving;
    hide FlattenOne;
    if ms != [] {
      hide Flatten;
      var m, rest := ms[0], DropRefs(ms[1..], gone);
      if m.ComponentRef? && m.name in gone {
        assert [] + rest == rest;
        FlattenRestored(t, gone, k, ms[1..], left);
        FlattenHollow(t, gone, k, ms, left + k + 1);
      } else {
        var dropped := [m] + rest;
        assert dropped[1..] == rest && dropped[0] == m && DropRefs(ms, gone) == dropped;
        FlattenCons(Surviving(t, gone), dropped, left);
        FlattenCons(t, ms, left + k + 1);
        HeadRestored(t, gone, k, m, left);
        FlattenRestored(t, gone, k, ms[1..], left);
      }
    }
  }

  /** Dropping hollow components changes no member list's tags: exactly the same lists have a flattening
      before and after, and it is the same. */
  lemma FlatteningKept(t: Table, gone: set<string>, k: nat, ms: seq<RawMember>, tags: seq<Tag>)
    requires Hollow(t, gone, k)
    ensures FlattensTo(t, ms, tags) <==> FlattensTo(Surviving(t, gone), DropRefs(ms, gone), tags)
  {
    if FlattensTo(t, ms, tags) {
      var left: nat :| Flatten(t, ms, left) == Some(tags);
      FlattenDropped(t, gone, k, ms, left);
    }
    if FlattensTo(Surviving(t, gone), DropRefs(ms, gone), tags) {
      var left: nat :| Flatten(Surviving(t, gone), DropRefs(ms, gone), left) == Some(tags);
      FlattenRestored(t, gone, k, ms, left);
    }
  }

  // ----- the loop

  ghost predicate NoEmptyComponent(doc: Document) {
    forall c :: c in doc.components ==> c.members != []
  }

  /** Every reference in a list is to a name in `names`. */
  ghost predicate RefersTo(ms: seq<RawMember>, names: set<string>) {
    forall n :: ComponentRef(n) in ms ==> n in names
  }

  ghost predicate ClosedDocument(doc: Document) {
    var names := Names(doc.components);
    && (forall c :: c in doc.components ==> RefersTo(c.members, names))
    && (forall g :: g in doc.groups ==> RefersTo(g, names))
    && (forall m :: m in doc.messages ==> RefersTo(m.0, names) && RefersTo(m.1, names))
  }

  /** A list all of whose members are references to hollow names is hollow, one level up. */
  lemma {:induction false} AllGoneIsHollow(t: Table, gone: set<string>, k: nat, ms: seq<RawMember>)
    requires Hollow(t, gone, k) && DropRefs(ms, gone) == []
    ensures Flatten(t, ms, k + 1) == Some([])
  {
    if ms != [] {
      AllGoneIsHollow(t, gone, k, ms[1..]);
    }
  }

  lemma TableEntry(cs: seq<Component>, i: nat)
    requires Distinct(cs) && i < |cs|
    ensures cs[i].name in TableOf(cs) && TableOf(cs)[cs[i].name] == cs[i].members
  {
    assert cs[i].name in Names(cs);
  }

  /** The names emptied in one more round are hollow too. */
  lemma NextRoundHollow(doc: Document, gone: set<string>, k: nat)
    requires Distinct(doc.components) && Hollow(TableOf(doc.components), gone, k)
    ensures Hollow(TableOf(doc.components), gone + EmptyNames(Drop(doc, gone).components), k + 1)
  {
    var t, cs := TableOf(doc.components), Drop(doc, gone).components;
    forall n | n in gone + EmptyNames(cs) ensures n in t && Flatten(t, t[n], k + 1) == Some([]) {
      if n in gone {
        FlattenMonotone(t, t[n], k, k + 1);
      } else {
        var i :| 0 <= i < |cs| && cs[i].members == [] && cs[i].name == n;
        assert cs[i] in cs;
        var b :| b in doc.components && cs[i] == Component(b.name, DropRefs(b.members, gone));
        var j :| 0 <= j < |doc.components| && doc.components[j] == b;
        TableEntry(doc.components, j);
        AllGoneIsHollow(t, gone, k, b.members);
      }
    }
  }

  /** Prune to a fixpoint. What is left is the document without the components in `gone`, none of it empty;
      all of `gone` stood for no tags, where names are distinct. */
  method Prune(doc: Document) returns (r: Document, ghost gone: set<string>, ghost k: nat)
    ensures r == Drop(doc, gone) && NoEmptyComponent(r)
    ensures Distinct(doc.components) ==> Hollow(TableOf(doc.components), gone, k)
  {
    hide *;
    r, gone, k := doc, {}, 0;
    DropNone(doc);
    HollowNothing(TableOf(doc.components));
    while true
      invariant r == Drop(doc, gone)
      invariant Distinct(doc.components) ==> Hollow(TableOf(doc.components), gone, k)
      decreases |r.components|
    {
      var empty := EmptyNames(r.components);
      if empty == {} {
        NothingEmpty(r);
        return;
      }
      if Distinct(doc.components) {
        NextRoundHollow(doc, gone, k);
      }
      DropTwice(doc, gone, empty);
      RoundShrinks(r);
      r := Drop(r, empty);
      gone, k := gone + empty, k + 1;
    }
  }

  lemma NothingEmpty(doc: Document)
    requires EmptyNames(doc.components) == {}
    ensures NoEmptyComponent(doc)
  {
    forall c | c in doc.components ensures c.members != [] {
      var i :| 0 <= i < |doc.components| && doc.components[i] == c;
      assert c.members == [] ==> c.name in EmptyNames(doc.components);
    }
  }

  lemma RoundShrinks(doc: Document)
    requires EmptyNames(doc.components) != {}
    ensures |Drop(doc, EmptyNames(doc.components)).components| < |doc.components|
  {
    var n :| n in EmptyNames(doc.components);
    var i :| 0 <= i < |doc.components| && doc.components[i].members == [] && doc.components[i].name == n;
    DroppingShrinks(doc.components, EmptyNames(doc.components));
  }

  lemma {:induction false} DroppingShrinks(cs: seq<Component>, gone: set<string>)
    requires exists i :: 0 <= i < |cs| && cs[i].name in gone
    ensures |DropComponents(cs, gone)| < |cs|
  {
    var i :| 0 <= i < |cs| && cs[i].name in gone;
    if cs[0].name !in gone {
      assert cs[1..][i - 1] == cs[i];
      DroppingShrinks(cs[1..], gone);
    }
  }

  // ----- what the result is

  /** Pruning leaves no reference to a dropped component, so a closed document stays closed. */
  lemma PrunedIsClosed(doc: Document, gone: set<string>)
    requires ClosedDocument(doc)
    ensures ClosedDocument(Drop(doc, gone))
  {
    var r := Drop(doc, gone);
    forall n | n in Names(doc.components) && n !in gone ensures n in Names(r.components) {
      var i :| 0 <= i < |doc.components| && doc.components[i].name == n;
      var b := doc.components[i];
      assert b in doc.components;
      var c := Component(b.name, DropRefs(b.members, gone));
      var j :| 0 <= j < |r.components| && r.components[j] == c;
    }
    forall g | g in r.groups ensures RefersTo(g, Names(r.components)) {
      var i :| 0 <= i < |r.groups| && r.groups[i] == g;
      assert doc.groups[i] in doc.groups;
    }
    forall m | m in r.messages ensures RefersTo(m.0, Names(r.components)) && RefersTo(m.1, Names(r.components)) {
      var i :| 0 <= i < |r.messages| && r.messages[i] == m;
      assert doc.messages[i] in doc.messages;
    }
  }

  lemma SurvivorIsNotEmpty(doc: Document, gone: set<string>, n: string)
    requires NoEmptyComponent(Drop(doc, gone)) && n in TableOf(doc.components) && n !in gone
    ensures DropRefs(TableOf(doc.components)[n], gone) != []
  {
    var ms := TableOf(doc.components)[n];
    var i :| 0 <= i < |doc.components| && doc.components[i] == Component(n, ms);
    assert Component(n, ms) in doc.components;
    assert Component(n, DropRefs(ms, gone)) in Drop(doc, gone).components;
  }

  lemma {:induction false} HollowIsGone(doc: Document, gone: set<string>, n: string, left: nat)
    requires ClosedDocument(doc) && NoEmptyComponent(Drop(doc, gone))
    requires n in TableOf(doc.components) && Flatten(TableOf(doc.components), TableOf(doc.components)[n], left) == Some([])
    ensures n in gone
    decreases left
  {
    hide Flatten;
    hide NoEmptyComponent;
    hide Drop;
    var t := TableOf(doc.components);
    var ms := t[n];
    var i :| 0 <= i < |doc.components| && doc.components[i] == Component(n, ms);
    assert Component(n, ms) in doc.components && RefersTo(ms, t.Keys);
    if n !in gone {
      SurvivorIsNotEmpty(doc, gone, n);
      var m := DropRefs(ms, gone)[0];
      assert m in DropRefs(ms, gone);
      HollowMember(t, ms, m, left);
      HollowIsGone(doc, gone, m.name, left - 1);
    }
  }

  lemma {:induction false} HollowMember(t: Table, ms: seq<RawMember>, m: RawMember, left: nat)
    requires Flatten(t, ms, left) == Some([]) && m in ms && (m.ComponentRef? ==> m.name in t)
    ensures m.ComponentRef? && left > 0 && Flatten(t, t[m.name], left - 1) == Some([])
  {
    if ms[0] != m {
      HollowMember(t, ms[1..], m, left);
    }
  }

  /** In a closed document exactly the components that stand for no tags are dropped. */
  lemma PrunedExactly(doc: Document, gone: set<string>, k: nat, n: string)
    requires Distinct(doc.components) && ClosedDocument(doc)
    requires NoEmptyComponent(Drop(doc, gone)) && Hollow(TableOf(doc.components), gone, k)
    requires n in Names(doc.components)
    ensures n in gone <==> FlattensTo(TableOf(doc.components), TableOf(doc.components)[n], [])
  {
    var t := TableOf(doc.components);
    if FlattensTo(t, t[n], []) {
      var left: nat :| Flatten(t, t[n], left) == Some([]);
      HollowIsGone(doc, gone, n, left);
    }
  }

  lemma PrunedEntry(doc: Document, gone: set<string>, n: string)
    requires Distinct(doc.components) && n in TableOf(Drop(doc, gone).components)
    ensures var t := TableOf(doc.components);
            n in t && n !in gone && TableOf(Drop(doc, gone).components)[n] == DropRefs(t[n], gone)
  {
    hide DropRefs;
    var cs := Drop(doc, gone).components;
    var i :| 0 <= i < |cs| && cs[i] == Component(n, TableOf(cs)[n]);
    assert cs[i] in cs;
    var b :| b in doc.components && cs[i] == Component(b.name, DropRefs(b.members, gone));
    var j :| 0 <= j < |doc.components| && doc.components[j] == b;
    TableEntry(doc.components, j);
  }

  lemma SurvivorIsListed(doc: Document, gone: set<string>, n: string)
    requires n in TableOf(doc.components) && n !in gone
    ensures n in TableOf(Drop(doc, gone).components)
  {
    hide DropRefs;
    var cs, ms := Drop(doc, gone).components, TableOf(doc.components)[n];
    var j :| 0 <= j < |doc.components| && doc.components[j] == Component(n, ms);
    assert Component(n, ms) in doc.components;
    assert Component(n, DropRefs(ms, gone)) in cs;
    var i :| 0 <= i < |cs| && cs[i] == Component(n, DropRefs(ms, gone));
    assert cs[i].name in Names(cs);
  }

  /** The table of the pruned document is the table of what survives, so the flattening law above speaks
      of the pruned document's own component table. */
  lemma PrunedTable(doc: Document, gone: set<string>)
    requires Distinct(doc.components)
    ensures TableOf(Drop(doc, gone).components) == Surviving(TableOf(doc.components), gone)
  {
    hide DropRefs;
    hide TableOf;
    hide Drop;
    var t, t' := TableOf(doc.components), TableOf(Drop(doc, gone).components);
    forall n | n in t' ensures n in t && n !in gone && t'[n] == DropRefs(t[n], gone) {
      PrunedEntry(doc, gone, n);
    }
    forall n | n in t && n !in gone ensures n in t' {
      SurvivorIsListed(doc, gone, n);
    }
  }

  // ----- flattening is expansion

  lemma {:induction false} FlattenIsNaive(t: Table, ms: seq<RawMember>, left: nat)
    requires Closed(t) && Refers(t, ms)
    ensures Flatten(t, ms, left) == NaiveMembers(t, ms, left + 1)
    decreases left, |ms|
  {
    if ms != [] {
      var head, rest := ms[0], ms[1..];
      assert ms == [head] + rest;
      assert Refers(t, rest) by { assert forall m :: m in rest ==> m in ms; }
      FlattenIsNaive(t, rest, left);
      OneIsNaive(t, head, left);
      NaiveCons(t, head, rest, left + 1);
      FlattenCons(t, ms, left);
    }
  }

  lemma {:induction false} OneIsNaive(t: Table, m: RawMember, left: nat)
    requires Closed(t) && (m.ComponentRef? ==> m.name in t)
    ensures FlattenOne(t, m, left) == NaiveMember(t, m, left + 1)
    decreases left, 0
  {
    if m.ComponentRef? && left > 0 {
      assert Refers(t, t[m.name]);
      FlattenIsNaive(t, t[m.name], left - 1);
    }
  }

  lemma {:induction false} NaiveCons(raw: RawComponents, m: RawMember, ms: seq<RawMember>, depth: nat)
    requires depth > 0
    ensures NaiveMembers(raw, [m] + ms, depth) ==
            var head, tail := NaiveMember(raw, m, depth), NaiveMembers(raw, ms, depth);
            if head.None? || tail.None? then None else Some(head.value + tail.value)
    decreases |ms|
  {
    hide NaiveMember;
    var all := [m] + ms;
    if ms == [] {
      assert all[..0] == [] && all[0] == m && all == [m];
      var head := NaiveMember(raw, m, depth);
      if head.Some? { assert [] + head.value == head.value == head.value + []; }
    } else {
      var init, last := ms[..|ms| - 1], ms[|ms| - 1];
      assert all[..|all| - 1] == [m] + init && all[|all| - 1] == last;
      NaiveCons(raw, m, init, depth);
      var head, front, back := NaiveMember(raw, m, depth), NaiveMembers(raw, init, depth), NaiveMember(raw, last, depth);
      if head.Some? && front.Some? && back.Some? {
        assert (head.value + front.value) + back.value == head.value + (front.value + back.value);
      }
    }
  }

  /** Where every reference is defined, flattening a list gives the tags its components expand to; a reference that
      is not defined gives none. */
  lemma FlatteningIsExpansion(t: Table, ms: seq<RawMember>, tags: seq<Tag>)
    requires Closed(t) && Refers(t, ms)
    ensures FlattensTo(t, ms, tags) <==> ExpandsMembers(t, ms, tags)
  {
    if FlattensTo(t, ms, tags) {
      var left: nat :| Flatten(t, ms, left) == Some(tags);
      FlattenIsNaive(t, ms, left);
    }
    if ExpandsMembers(t, ms, tags) {
      var depth: nat :| depth > 0 && NaiveMembers(t, ms, depth) == Some(tags);
      FlattenIsNaive(t, ms, depth - 1);
    }
  }

  lemma UndefinedFlattensToNothing(t: Table, n: string, left: nat)
    requires n !in t
    ensures Flatten(t, [ComponentRef(n)], left) == Some([])
  {
    var m := ComponentRef(n);
    assert [m][1..] == [];
    assert Flatten(t, [], left) == Some([]);
    assert FlattenOne(t, m, left) == Some([]);
    FlattenCons(t, [m], left);
    var none: seq<Tag> := [];
    assert none + none == none;
  }
}
