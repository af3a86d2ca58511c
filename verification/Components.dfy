/** Expanding component references into flat tag lists by a memoised depth-first search with cycle detection
    (`resolve_all_components`, `resolve_component` and `expand_members` in `truefix-dict/src/parser.rs`; the
    build-time track in `truefix-dict/src/codegen.rs` repeats the same algorithm). */
module Components {
  import opened Decimal
  import opened FieldMaps
  import opened Graphs

  datatype RawMember = TagMember(tag: Tag) | ComponentRef(name: string)

  type RawComponents = map<string, seq<RawMember>>

  datatype ResolveError = ComponentCycle(name: string) | UnknownComponent(name: string)

  datatype Outcome<+T> = Success(value: T) | Failure(error: ResolveError)

  function Refs(ms: seq<RawMember>): (r: seq<string>)
    ensures forall n :: n in r <==> ComponentRef(n) in ms
  {
    if ms == [] then []
    else (if ms[0].ComponentRef? then [ms[0].name] else []) + Refs(ms[1..])
  }

  /** Which component refers to which. */
  function RefGraph(raw: RawComponents): (g: Graph<string>) {
    map n | n in raw :: Refs(raw[n])
  }

  ghost predicate Closed(raw: RawComponents) {
    forall n, m :: n in raw && ComponentRef(m) in raw[n] ==> m in raw
  }

  // ----- reference: expansion by plain recursion

  /** Expansion down to `depth` levels of reference; `None` if that is not deep enough or a name is unknown. */
  function Naive(raw: RawComponents, name: string, depth: nat): (r: Option<seq<Tag>>)
    decreases depth, 0
  {
    if depth == 0 || name !in raw then None else NaiveMembers(raw, raw[name], depth)
  }

  function NaiveMembers(raw: RawComponents, ms: seq<RawMember>, depth: nat): (r: Option<seq<Tag>>)
    requires depth > 0
    decreases depth - 1, |ms| + 1
  {
    if ms == [] then Some([])
    else
      var init := NaiveMembers(raw, ms[..|ms| - 1], depth);
      var last := NaiveMember(raw, ms[|ms| - 1], depth);
      if init.None? || last.None? then None else Some(init.value + last.value)
  }

  function NaiveMember(raw: RawComponents, m: RawMember, depth: nat): (r: Option<seq<Tag>>)
    requires depth > 0
    decreases depth - 1, 1
  {
    match m
    case TagMember(t) => Some([t])
    case ComponentRef(n) => Naive(raw, n, depth - 1)
  }

  /** The component's flat tag list by plain recursion. */
  ghost predicate Expands(raw: RawComponents, name: string, tags: seq<Tag>) {
    exists depth: nat :: Naive(raw, name, depth) == Some(tags)
  }

  ghost predicate ExpandsMembers(raw: RawComponents, ms: seq<RawMember>, tags: seq<Tag>) {
    exists depth: nat :: depth > 0 && NaiveMembers(raw, ms, depth) == Some(tags)
  }

  lemma {:induction false} NaiveMonotone(raw: RawComponents, name: string, depth: nat, more: nat)
    requires depth <= more && Naive(raw, name, depth).Some?
    ensures Naive(raw, name, more) == Naive(raw, name, depth)
    decreases depth, 0
  {
    NaiveMembersMonotone(raw, raw[name], depth, more);
  }

  lemma {:induction false} NaiveMembersMonotone(raw: RawComponents, ms: seq<RawMember>, depth: nat, more: nat)
    requires 0 < depth <= more && NaiveMembers(raw, ms, depth).Some?
    ensures NaiveMembers(raw, ms, more) == NaiveMembers(raw, ms, depth)
    decreases depth - 1, |ms| + 1
  {
    if ms != [] {
      NaiveMembersMonotone(raw, ms[..|ms| - 1], depth, more);
      var last := ms[|ms| - 1];
      if last.ComponentRef? {
        NaiveMonotone(raw, last.name, depth - 1, more - 1);
      }
    }
  }

  /** A component has at most one expansion. */
  lemma ExpandsUnique(raw: RawComponents, name: string, tags: seq<Tag>, tags': seq<Tag>)
    requires Expands(raw, name, tags) && Expands(raw, name, tags')
    ensures tags == tags'
  {
    var depth: nat :| Naive(raw, name, depth) == Some(tags);
    var depth': nat :| Naive(raw, name, depth') == Some(tags');
    if depth <= depth' { NaiveMonotone(raw, name, depth, depth'); } else { NaiveMonotone(raw, name, depth', depth); }
  }

  lemma ExpandsSnoc(raw: RawComponents, ms: seq<RawMember>, tags: seq<Tag>, m: RawMember, more: seq<Tag>)
    requires ExpandsMembers(raw, ms, tags)
    requires if m.TagMember? then more == [m.tag] else Expands(raw, m.name, more)
    ensures ExpandsMembers(raw, ms + [m], tags + more)
  {
    hide NaiveMembers;
    hide Naive;
    var depth: nat :| depth > 0 && NaiveMembers(raw, ms, depth) == Some(tags);
    var deeper := depth;
    if m.ComponentRef? {
      var depth': nat :| Naive(raw, m.name, depth') == Some(more);
      deeper := depth + depth' + 1;
      NaiveMonotone(raw, m.name, depth', deeper - 1);
    }
    NaiveMembersMonotone(raw, ms, depth, deeper);
    NaiveSnoc(raw, ms, m, deeper);
  }

  lemma NaiveSnoc(raw: RawComponents, ms: seq<RawMember>, m: RawMember, depth: nat)
    requires depth > 0 && NaiveMembers(raw, ms, depth).Some? && NaiveMember(raw, m, depth).Some?
    ensures NaiveMembers(raw, ms + [m], depth)
         == Some(NaiveMembers(raw, ms, depth).value + NaiveMember(raw, m, depth).value)
  {
    assert (ms + [m])[..|ms|] == ms;
  }

  lemma ExpandsFromMembers(raw: RawComponents, name: string, tags: seq<Tag>)
    requires name in raw && ExpandsMembers(raw, raw[name], tags)
    ensures Expands(raw, name, tags)
  {
    var depth: nat :| depth > 0 && NaiveMembers(raw, raw[name], depth) == Some(tags);
    assert Naive(raw, name, depth) == Some(tags);
  }

  // ----- expansion and the shape of the reference graph

  lemma {:induction false} NaiveMembersDescend(raw: RawComponents, ms: seq<RawMember>, n: string, depth: nat)
    requires depth > 0 && NaiveMembers(raw, ms, depth).Some? && ComponentRef(n) in ms
    ensures Naive(raw, n, depth - 1).Some?
  {
    var last := ms[|ms| - 1];
    if last != ComponentRef(n) {
      assert ms == ms[..|ms| - 1] + [last];
      NaiveMembersDescend(raw, ms[..|ms| - 1], n, depth);
    }
  }

  /** An expansion is deeper than every path that starts at its component. */
  lemma {:induction false} PathsAreShallow(raw: RawComponents, p: seq<string>, depth: nat)
    requires Path(RefGraph(raw), p) && Naive(raw, p[0], depth).Some?
    ensures |p| <= depth
    decreases |p|
  {
    if |p| > 1 {
      assert Edge(RefGraph(raw), p[0], p[1]);
      NaiveMembersDescend(raw, raw[p[0]], p[1], depth);
      var q := p[1..];
      forall i | 0 <= i < |q| - 1 ensures Edge(RefGraph(raw), q[i], q[i + 1]) {
        assert Edge(RefGraph(raw), p[i + 1], p[i + 2]);
      }
      PathsAreShallow(raw, q, depth - 1);
    }
  }

  /** A component on a cycle has no expansion. */
  lemma CyclicHasNoExpansion(raw: RawComponents, name: string, tags: seq<Tag>)
    requires Expands(raw, name, tags)
    ensures !Reaches(RefGraph(raw), name, name)
  {
    var depth: nat :| Naive(raw, name, depth) == Some(tags);
    if Reaches(RefGraph(raw), name, name) {
      var p := CycleUnrolls(RefGraph(raw), name, depth);
      PathsAreShallow(raw, p, depth);
    }
  }

  // ----- the memoised search

  /** Every remembered component is a defined one with its right expansion, and so are all it refers to. */
  ghost predicate Memo(raw: RawComponents, resolved: map<string, seq<Tag>>) {
    forall n :: n in resolved ==>
      && n in raw && Expands(raw, n, resolved[n])
      && forall m :: ComponentRef(m) in raw[n] ==> m in resolved
  }

  /** What an error says of the reference graph. */
  ghost predicate Justified(raw: RawComponents, start: string, e: ResolveError) {
    match e
    case ComponentCycle(n) => Reaches(RefGraph(raw), n, n)
    case UnknownComponent(n) => n !in raw && (n == start || exists m :: m in raw && ComponentRef(n) in raw[m])
  }

  class Resolver {
    const raw: RawComponents
    var resolved: map<string, seq<Tag>>
    var resolving: set<string>

    constructor (raw: RawComponents)
      ensures this.raw == raw && resolved == map[] && resolving == {}
    {
      this.raw, resolved, resolving := raw, map[], {};
    }

    /** The components being resolved, all on the way to `name`; none of them is finished. */
    ghost predicate OnTheWay(name: string)
      reads this
    {
      && resolving <= raw.Keys && resolving !! resolved.Keys
      && forall x :: x in resolving ==> Reaches(RefGraph(raw), x, name)
    }

    method Resolve(name: string) returns (r: Outcome<seq<Tag>>)
      requires Memo(raw, resolved) && OnTheWay(name)
      modifies this
      ensures Memo(raw, resolved) && SubMap(old(resolved), resolved)
      ensures r.Success? ==> resolving == old(resolving) && resolving !! resolved.Keys
      ensures r.Success? ==> name in resolved && resolved[name] == r.value
      ensures r.Failure? ==> Justified(raw, name, r.error)
      decreases raw.Keys - resolving
    {
      if name in resolved {
        return Success(resolved[name]);
      }
      if name in resolving {
        return Failure(ComponentCycle(name));
      }
      resolving := resolving + {name};
      if name !in raw {
        return Failure(UnknownComponent(name));
      }
      ghost var before := old(resolving);
      var ms, members := raw[name], [];
      assert ExpandsMembers(raw, [], []) by { assert NaiveMembers(raw, [], 1) == Some([]); }
      for i := 0 to |ms|
        invariant Memo(raw, resolved) && SubMap(old(resolved), resolved)
        invariant resolving == before + {name} && resolving !! resolved.Keys
        invariant ExpandsMembers(raw, ms[..i], members)
        invariant forall n :: ComponentRef(n) in ms[..i] ==> n in resolved
      {
        assert ms[..i + 1] == ms[..i] + [ms[i]];
        match ms[i] {
          case TagMember(t) =>
            ExpandsSnoc(raw, ms[..i], members, ms[i], [t]);
            members := members + [t];
          case ComponentRef(n) =>
            StepsToward(name, n);
            var sub := Resolve(n);
            if sub.Failure? {
              assert ComponentRef(n) in raw[name];
              return Failure(sub.error);
            }
            ExpandsSnoc(raw, ms[..i], members, ms[i], sub.value);
            members := members + sub.value;
        }
      }
      assert ms[..|ms|] == ms;
      ExpandsFromMembers(raw, name, members);
      resolving := resolving - {name};
      resolved := resolved[name := members];
      r := Success(members);
    }

    /** A reference of `name` extends every path that leads to `name`. */
    lemma StepsToward(name: string, n: string)
      requires name in raw && ComponentRef(n) in raw[name]
      requires forall x :: x in resolving ==> x == name || Reaches(RefGraph(raw), x, name)
      ensures forall x :: x in resolving ==> Reaches(RefGraph(raw), x, n)
    {
      EdgeReaches(RefGraph(raw), name, n);
      forall x | x in resolving ensures Reaches(RefGraph(raw), x, n) {
        if x != name { ReachesTransitive(RefGraph(raw), x, name, n); }
      }
    }
  }

  /** Resolving all components, visited in any order: succeeds exactly when every reference is defined and
      none is circular, and then gives each component its plain recursive expansion; a failure names a
      component that reaches itself, or a reference that is defined nowhere. */
  method ResolveAll(raw: RawComponents, order: seq<string>) returns (r: Outcome<map<string, seq<Tag>>>)
    requires forall n :: n in order <==> n in raw
    ensures r.Success? <==> Closed(raw) && Acyclic(RefGraph(raw))
    ensures r.Success? ==> r.value.Keys == raw.Keys && forall n :: n in raw ==> Expands(raw, n, r.value[n])
    ensures r.Failure? ==> match r.error
                           case ComponentCycle(n) => Reaches(RefGraph(raw), n, n)
                           case UnknownComponent(n) => n !in raw && exists m :: m in raw && ComponentRef(n) in raw[m]
  {
    var resolver := new Resolver(raw);
    for i := 0 to |order|
      invariant resolver.raw == raw && Memo(raw, resolver.resolved) && resolver.resolving == {}
      invariant forall j :: 0 <= j < i ==> order[j] in resolver.resolved
    {
      if order[i] !in resolver.resolved {
        var one := resolver.Resolve(order[i]);
        if one.Failure? {
          return Failure(one.error);
        }
      }
    }
    assert resolver.resolved.Keys == raw.Keys;
    forall n ensures !Reaches(RefGraph(raw), n, n) {
      if Reaches(RefGraph(raw), n, n) {
        var m := ReachesFirst(RefGraph(raw), n, n);
        CyclicHasNoExpansion(raw, n, resolver.resolved[n]);
      }
    }
    r := Success(resolver.resolved);
  }

  /** The names of a table, listed. */
  method ListNames(raw: RawComponents) returns (order: seq<string>)
    ensures forall n :: n in order <==> n in raw
  {
    order := [];
    var todo := raw.Keys;
    while todo != {}
      invariant todo <= raw.Keys
      invariant forall n :: n in order <==> n in raw && n !in todo
      decreases todo
    {
      var n :| n in todo;
      order := order + [n];
      todo := todo - {n};
    }
  }

  // ----- the result as a function of the definitions alone

  /** The table `ResolveAll` must produce: every name with its expansion. */
  ghost predicate IsResolution(raw: RawComponents, table: map<string, seq<Tag>>) {
    table.Keys == raw.Keys && forall n :: n in raw ==> Expands(raw, n, table[n])
  }

  /** There is one such table at most, so the visiting order cannot matter. */
  lemma ResolutionUnique(raw: RawComponents, table: map<string, seq<Tag>>, table': map<string, seq<Tag>>)
    requires IsResolution(raw, table) && IsResolution(raw, table')
    ensures table == table'
  {
    forall n | n in raw ensures table[n] == table'[n] {
      ExpandsUnique(raw, n, table[n], table'[n]);
    }
  }

  // ----- member lists of messages and groups

  /** Splicing each referenced component's tags into a member list; `None` is an unknown component. */
  function ExpandMembers(ms: seq<RawMember>, table: map<string, seq<Tag>>): (r: Outcome<seq<Tag>>) {
    if ms == [] then Success([])
    else match ExpandMembers(ms[..|ms| - 1], table)
      case Failure(e) => Failure(e)
      case Success(tags) =>
        match ms[|ms| - 1]
        case TagMember(t) => Success(tags + [t])
        case ComponentRef(n) =>
          if n in table then Success(tags + table[n]) else Failure(UnknownComponent(n))
  }

  /** Splicing resolved components is plain recursive expansion, and fails only on an undefined name. */
  lemma {:induction false} ExpandMembersIsNaive(raw: RawComponents, table: map<string, seq<Tag>>, ms: seq<RawMember>)
    requires IsResolution(raw, table)
    ensures var r := ExpandMembers(ms, table);
            && (r.Success? ==> ExpandsMembers(raw, ms, r.value))
            && (r.Failure? ==> r.error.UnknownComponent? && r.error.name !in raw && ComponentRef(r.error.name) in ms)
  {
    if ms == [] {
      assert NaiveMembers(raw, [], 1) == Some([]);
    } else {
      var init, last := ms[..|ms| - 1], ms[|ms| - 1];
      assert ms == init + [last];
      ExpandMembersIsNaive(raw, table, init);
      var tags := ExpandMembers(init, table);
      if tags.Success? && (last.TagMember? || last.name in table) {
        ExpandsSnoc(raw, init, tags.value, last, if last.TagMember? then [last.tag] else table[last.name]);
      }
    }
  }

  lemma {:induction false} ExpandStops(ms: seq<RawMember>, table: map<string, seq<Tag>>, i: nat)
    requires i <= |ms| && ExpandMembers(ms[..i], table).Failure?
    ensures ExpandMembers(ms, table) == ExpandMembers(ms[..i], table)
    decreases |ms|
  {
    if i == |ms| {
      assert ms[..i] == ms;
    } else {
      assert ms[..|ms| - 1][..i] == ms[..i];
      ExpandStops(ms[..|ms| - 1], table, i);
    }
  }

  method Expand(ms: seq<RawMember>, table: map<string, seq<Tag>>) returns (r: Outcome<seq<Tag>>)
    ensures r == ExpandMembers(ms, table)
  {
    var out := [];
    for i := 0 to |ms|
      invariant ExpandMembers(ms[..i], table) == Success(out)
    {
      assert ms[..i + 1][..i] == ms[..i];
      match ms[i] {
        case TagMember(t) => out := out + [t];
        case ComponentRef(n) =>
          if n !in table {
            ExpandStops(ms, table, i + 1);
            return Failure(UnknownComponent(n));
          }
          out := out + table[n];
      }
    }
    assert ms[..|ms|] == ms;
    r := Success(out);
  }

  /** All references of a member list are defined. */
  ghost predicate Refers(raw: RawComponents, ms: seq<RawMember>) {
    forall n :: ComponentRef(n) in ms ==> n in raw
  }

  lemma {:induction false} ExpandSucceeds(raw: RawComponents, table: map<string, seq<Tag>>, ms: seq<RawMember>)
    requires table.Keys == raw.Keys
    ensures ExpandMembers(ms, table).Success? <==> Refers(raw, ms)
  {
    if ms != [] {
      var init, last := ms[..|ms| - 1], ms[|ms| - 1];
      assert ms == init + [last];
      ExpandSucceeds(raw, table, init);
    }
  }

  /** A member list has at most one expansion. */
  lemma ExpandsMembersUnique(raw: RawComponents, ms: seq<RawMember>, tags: seq<Tag>, tags': seq<Tag>)
    requires ExpandsMembers(raw, ms, tags) && ExpandsMembers(raw, ms, tags')
    ensures tags == tags'
  {
    hide NaiveMembers;
    var depth: nat :| depth > 0 && NaiveMembers(raw, ms, depth) == Some(tags);
    var depth': nat :| depth' > 0 && NaiveMembers(raw, ms, depth') == Some(tags');
    if depth <= depth' {
      NaiveMembersMonotone(raw, ms, depth, depth');
    } else {
      NaiveMembersMonotone(raw, ms, depth', depth);
    }
  }

  /** Splicing succeeds exactly when every reference is defined, and gives the expansion. */
  lemma ExpandedList(raw: RawComponents, table: map<string, seq<Tag>>, ms: seq<RawMember>)
    requires IsResolution(raw, table)
    ensures ExpandMembers(ms, table).Success? <==> Refers(raw, ms)
    ensures var r := ExpandMembers(ms, table);
            && (r.Success? ==> ExpandsMembers(raw, ms, r.value))
            && (r.Failure? ==> r.error.UnknownComponent? && r.error.name !in raw)
  {
    ExpandSucceeds(raw, table, ms);
    ExpandMembersIsNaive(raw, table, ms);
  }
}
